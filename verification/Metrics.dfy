/** The in-process counters and histogram (observability.py) and what they say about the execution log. */
module Metrics {
  import opened Prelude
  import opened Contexts
  import opened Hooks
  import opened Sorting

  /** `tuple(sorted(attributes.items()))`: which of the three attributes are set, and to what. */
  datatype Attrs = Attrs(hook: string, impl: Option<string>, status: Option<Status>)

  type Counts = map<Attrs, nat>

  function At(m: Counts, a: Attrs): nat {
    if a in m then m[a] else 0
  }

  /** The values of a counter summed over the keys that satisfy p. */
  ghost function SumWhere(m: Counts, p: Attrs -> bool): nat
    decreases |m|
  {
    if m == map[] then 0
    else
      var a :| a in m;
      (if p(a) then m[a] else 0) + SumWhere(m - {a}, p)
  }

  lemma {:induction false} SumTakeOut(m: Counts, p: Attrs -> bool, a: Attrs)
    requires a in m
    ensures SumWhere(m, p) == (if p(a) then m[a] else 0) + SumWhere(m - {a}, p)
    decreases |m|
  {
    var b :| b in m && SumWhere(m, p) == (if p(b) then m[b] else 0) + SumWhere(m - {b}, p);
    if a == b {
    } else {
      SumTakeOut(m - {b}, p, a);
      SumTakeOut(m - {a}, p, b);
      assert m - {a} - {b} == m - {b} - {a};
    }
  }

  lemma SumOfBump(m: Counts, p: Attrs -> bool, a: Attrs)
    ensures SumWhere(m[a := At(m, a) + 1], p) == SumWhere(m, p) + (if p(a) then 1 else 0)
  {
    var m' := m[a := At(m, a) + 1];
    SumTakeOut(m', p, a);
    if a in m {
      SumTakeOut(m, p, a);
      assert m' - {a} == m - {a};
    } else {
      assert m' - {a} == m;
    }
  }

  // ----- Counters as functions of the log -----

  /** Which key of a counter an execution bumps, if any. */
  type KeyFn = Execution -> Option<Attrs>

  function ExecutionKey(e: Execution): Option<Attrs> {
    Some(Attrs(e.hook, Some(e.impl), Some(e.status)))
  }

  function ErrorKey(e: Execution): Option<Attrs> {
    if e.status == StError then Some(Attrs(e.hook, Some(e.impl), None)) else None
  }

  function TimeoutKey(e: Execution): Option<Attrs> {
    if e.status == StTimeout then Some(Attrs(e.hook, None, None)) else None
  }

  function BlockedKey(e: Execution): Option<Attrs> {
    if e.status == StBlocked then Some(Attrs(e.hook, Some(e.impl), None)) else None
  }

  function Bump(m: Counts, key: Option<Attrs>): Counts {
    match key
    case None => m
    case Some(a) => m[a := At(m, a) + 1]
  }

  function CountsOf(log: seq<Execution>, key: KeyFn): Counts {
    if log == [] then map[]
    else Bump(CountsOf(log[..|log| - 1], key), key(log[|log| - 1]))
  }

  function Durations(log: seq<Execution>): (ds: seq<real>)
    ensures |ds| == |log|
  {
    seq(|log|, i requires 0 <= i < |log| => log[i].ms)
  }

  /** How many executions bump a key that satisfies p. */
  function CountWhere(log: seq<Execution>, key: KeyFn, p: Attrs -> bool): nat {
    if log == [] then 0
    else
      var e := log[|log| - 1];
      CountWhere(log[..|log| - 1], key, p) + (if key(e).Some? && p(key(e).value) then 1 else 0)
  }

  /** A counter's values, summed over any set of keys, count the executions that belong there. */
  lemma {:induction false} CounterAgreesWithLog(log: seq<Execution>, key: KeyFn, p: Attrs -> bool)
    ensures SumWhere(CountsOf(log, key), p) == CountWhere(log, key, p)
  {
    if log == [] {
    } else {
      var before, e := log[..|log| - 1], log[|log| - 1];
      CounterAgreesWithLog(before, key, p);
      if key(e).Some? {
        SumOfBump(CountsOf(before, key), p, key(e).value);
      }
    }
  }

  lemma {:induction false} CounterAtKey(log: seq<Execution>, key: KeyFn, a: Attrs)
    ensures At(CountsOf(log, key), a) == CountWhere(log, key, x => x == a)
  {
    if log == [] {
    } else {
      CounterAtKey(log[..|log| - 1], key, a);
    }
  }

  lemma {:induction false} SameCounting(log: seq<Execution>, k1: KeyFn, p1: Attrs -> bool, k2: KeyFn, p2: Attrs -> bool)
    requires forall e | e in log ::
               (k1(e).Some? && p1(k1(e).value)) == (k2(e).Some? && p2(k2(e).value))
    ensures CountWhere(log, k1, p1) == CountWhere(log, k2, p2)
  {
    if log == [] {
    } else {
      assert log[|log| - 1] in log;
      SameCounting(log[..|log| - 1], k1, p1, k2, p2);
    }
  }

  predicate Any(a: Attrs) {
    true
  }

  predicate IsError(a: Attrs) {
    a.status == Some(StError)
  }

  predicate IsTimeout(a: Attrs) {
    a.status == Some(StTimeout)
  }

  predicate IsBlocked(a: Attrs) {
    a.status == Some(StBlocked)
  }

  lemma {:induction false} EveryExecutionCounts(log: seq<Execution>)
    ensures CountWhere(log, ExecutionKey, Any) == |log|
  {
    if log == [] {
    } else {
      EveryExecutionCounts(log[..|log| - 1]);
    }
  }

  /** After any log: total executions are the log's length, and the three derived counters are the
      executions summed over the matching status. */
  lemma AccountingIsConserved(log: seq<Execution>)
    ensures SumWhere(CountsOf(log, ExecutionKey), Any) == |log| == |Durations(log)|
    ensures SumWhere(CountsOf(log, ErrorKey), Any) == SumWhere(CountsOf(log, ExecutionKey), IsError)
    ensures SumWhere(CountsOf(log, TimeoutKey), Any) == SumWhere(CountsOf(log, ExecutionKey), IsTimeout)
    ensures SumWhere(CountsOf(log, BlockedKey), Any) == SumWhere(CountsOf(log, ExecutionKey), IsBlocked)
  {
    CounterAgreesWithLog(log, ExecutionKey, Any);
    EveryExecutionCounts(log);
    CounterAgreesWithLog(log, ExecutionKey, IsError);
    CounterAgreesWithLog(log, ErrorKey, Any);
    SameCounting(log, ErrorKey, Any, ExecutionKey, IsError);
    CounterAgreesWithLog(log, ExecutionKey, IsTimeout);
    CounterAgreesWithLog(log, TimeoutKey, Any);
    SameCounting(log, TimeoutKey, Any, ExecutionKey, IsTimeout);
    CounterAgreesWithLog(log, ExecutionKey, IsBlocked);
    CounterAgreesWithLog(log, BlockedKey, Any);
    SameCounting(log, BlockedKey, Any, ExecutionKey, IsBlocked);
  }

  /** Key by key: errors and blocks per implementation, timeouts summed over a hookpoint's implementations. */
  lemma DerivedCountersByKey(log: seq<Execution>, hook: string, impl: string)
    ensures At(CountsOf(log, ErrorKey), Attrs(hook, Some(impl), None)) ==
            At(CountsOf(log, ExecutionKey), Attrs(hook, Some(impl), Some(StError)))
    ensures At(CountsOf(log, BlockedKey), Attrs(hook, Some(impl), None)) ==
            At(CountsOf(log, ExecutionKey), Attrs(hook, Some(impl), Some(StBlocked)))
    ensures At(CountsOf(log, TimeoutKey), Attrs(hook, None, None)) ==
            SumWhere(CountsOf(log, ExecutionKey), (a: Attrs) => a.hook == hook && a.status == Some(StTimeout))
  {
    var errors, executions := Attrs(hook, Some(impl), None), Attrs(hook, Some(impl), Some(StError));
    CounterAtKey(log, ErrorKey, errors);
    CounterAtKey(log, ExecutionKey, executions);
    SameCounting(log, ErrorKey, x => x == errors, ExecutionKey, x => x == executions);
    var blocks := Attrs(hook, Some(impl), Some(StBlocked));
    CounterAtKey(log, BlockedKey, errors);
    CounterAtKey(log, ExecutionKey, blocks);
    SameCounting(log, BlockedKey, x => x == errors, ExecutionKey, x => x == blocks);
    var timeouts := Attrs(hook, None, None);
    var p := (a: Attrs) => a.hook == hook && a.status == Some(StTimeout);
    CounterAtKey(log, TimeoutKey, timeouts);
    CounterAgreesWithLog(log, ExecutionKey, p);
    SameCounting(log, TimeoutKey, x => x == timeouts, ExecutionKey, p);
  }

  lemma CountsSnoc(log: seq<Execution>, key: KeyFn, e: Execution, a: Attrs)
    ensures At(CountsOf(log + [e], key), a) == At(CountsOf(log, key), a) + (if key(e) == Some(a) then 1 else 0)
  {
    assert (log + [e])[..|log|] == log;
  }

  /** What recording one execution of a hook adds to the counters, by how its function came out: one to the
      executions of the status, and one to the timeouts of the hookpoint, the errors of the implementation or
      the blocks of the implementation. */
  ghost predicate Counted(log: seq<Execution>, hook: string, reg: Registration, c: Context, a: Attrs) {
    var o, after := reg.fn(c).outcome, log + [Record(hook, reg, c)];
    && At(CountsOf(after, TimeoutKey), a) == At(CountsOf(log, TimeoutKey), a) +
         (if o == Timeout && a == Attrs(hook, None, None) then 1 else 0)
    && At(CountsOf(after, ErrorKey), a) == At(CountsOf(log, ErrorKey), a) +
         (if o == Error && a == Attrs(hook, Some(reg.name), None) then 1 else 0)
    && At(CountsOf(after, BlockedKey), a) == At(CountsOf(log, BlockedKey), a) +
         (if o == Blocked && a == Attrs(hook, Some(reg.name), None) then 1 else 0)
    && At(CountsOf(after, ExecutionKey), a) == At(CountsOf(log, ExecutionKey), a) +
         (if a.hook == hook && a.impl == Some(reg.name) && a.status.Some? && Means(a.status.value, o)
          then 1 else 0)
    && Durations(after) == Durations(log) + [reg.fn(c).ms]
  }

  /** The keys that one execution of a hook bumps. */
  lemma KeysOf(hook: string, reg: Registration, c: Context, a: Attrs)
    ensures var o, e := reg.fn(c).outcome, Record(hook, reg, c);
            && (TimeoutKey(e) == Some(a) <==> o == Timeout && a == Attrs(hook, None, None))
            && (ErrorKey(e) == Some(a) <==> o == Error && a == Attrs(hook, Some(reg.name), None))
            && (BlockedKey(e) == Some(a) <==> o == Blocked && a == Attrs(hook, Some(reg.name), None))
            && (ExecutionKey(e) == Some(a) <==>
                  a.hook == hook && a.impl == Some(reg.name) && a.status.Some? && Means(a.status.value, o))
  {
    RecordDescribes(hook, reg, c, Record(hook, reg, c));
  }

  lemma CountedAs(log: seq<Execution>, hook: string, reg: Registration, c: Context, a: Attrs)
    ensures Counted(log, hook, reg, c, a)
  {
    var e := Record(hook, reg, c);
    KeysOf(hook, reg, c, a);
    CountsSnoc(log, TimeoutKey, e, a);
    CountsSnoc(log, ErrorKey, e, a);
    CountsSnoc(log, BlockedKey, e, a);
    CountsSnoc(log, ExecutionKey, e, a);
    DurationsSnoc(log, e);
  }

  lemma DurationsSnoc(log: seq<Execution>, e: Execution)
    ensures Durations(log + [e]) == Durations(log) + [e.ms]
  {
  }

  // ----- p95 -----

  function Itself(r: real): real {
    r
  }

  /** `sorted(obs)[max(0, int(len * 0.95) - 1)]`, or 0.0 for no observations. */
  function P95(obs: seq<real>): real {
    if obs == [] then 0.0
    else
      var s := SortBy(obs, Itself);
      var idx := if 19 * |obs| / 20 - 1 < 0 then 0 else 19 * |obs| / 20 - 1;
      SortLength(obs, Itself);
      s[idx]
  }

  lemma SortLength<T>(s: seq<T>, key: T -> real)
    ensures |SortBy(s, key)| == |s|
  {
    SortKeepsElements(s, key);
    assert |multiset(SortBy(s, key))| == |multiset(s)|;
  }

  function Rank(n: nat): nat {
    if 19 * n / 20 < 1 then 1 else 19 * n / 20
  }

  function AtMostCount(obs: seq<real>, v: real): nat {
    if obs == [] then 0 else (if obs[0] <= v then 1 else 0) + AtMostCount(obs[1..], v)
  }

  function AtLeastCount(obs: seq<real>, v: real): nat {
    if obs == [] then 0 else (if obs[0] >= v then 1 else 0) + AtLeastCount(obs[1..], v)
  }

  lemma {:induction false} InsertCounts(x: real, s: seq<real>, v: real)
    ensures AtMostCount(Insert(x, s, Itself), v) == (if x <= v then 1 else 0) + AtMostCount(s, v)
    ensures AtLeastCount(Insert(x, s, Itself), v) == (if x >= v then 1 else 0) + AtLeastCount(s, v)
  {
    if s == [] || Itself(x) <= Itself(s[0]) {
      assert ([x] + s)[1..] == s;
    } else {
      InsertCounts(x, s[1..], v);
      var t := Insert(x, s[1..], Itself);
      assert ([s[0]] + t)[1..] == t;
    }
  }

  lemma {:induction false} SortCounts(s: seq<real>, v: real)
    ensures AtMostCount(SortBy(s, Itself), v) == AtMostCount(s, v)
    ensures AtLeastCount(SortBy(s, Itself), v) == AtLeastCount(s, v)
  {
    if s == [] {
    } else {
      SortCounts(s[1..], v);
      InsertCounts(s[0], SortBy(s[1..], Itself), v);
    }
  }

  lemma {:induction false} SortedCounts(s: seq<real>, i: nat, v: real)
    requires i < |s| && Sorted(s, Itself) && v == s[i]
    ensures AtMostCount(s, v) >= i + 1
    ensures AtLeastCount(s, v) >= |s| - i
  {
    if i > 0 {
      SortedCounts(s[1..], i - 1, v);
      assert Itself(s[0]) <= Itself(s[i]);
    } else {
      AllAtLeast(s, v);
    }
  }

  lemma {:induction false} AllAtLeast(s: seq<real>, v: real)
    requires forall i | 0 <= i < |s| :: s[i] >= v
    ensures AtLeastCount(s, v) == |s|
  {
    if s == [] {
    } else {
      AllAtLeast(s[1..], v);
    }
  }

  lemma RankedInSorted(obs: seq<real>)
    requires obs != []
    ensures P95(obs) in obs
    ensures AtMostCount(obs, P95(obs)) >= Rank(|obs|)
    ensures AtLeastCount(obs, P95(obs)) >= |obs| - Rank(|obs|) + 1
  {
    var s := SortBy(obs, Itself);
    SortLength(obs, Itself);
    SortIsStable(obs, Itself);
    SortKeepsElements(obs, Itself);
    var idx := Rank(|obs|) - 1;
    assert P95(obs) == s[idx];
    assert s[idx] in multiset(s);
    SortedCounts(s, idx, s[idx]);
    SortCounts(obs, s[idx]);
  }

  /** For n observations and rank r = max(1, floor(19n / 20)): the result is an observation, at least r of
      them are not above it and at least n - r + 1 are not below it. Without observations it is 0. */
  lemma P95IsARank(obs: seq<real>)
    ensures obs == [] ==> P95(obs) == 0.0
    ensures obs != [] ==>
              var r := if 19 * |obs| / 20 < 1 then 1 else 19 * |obs| / 20;
              && P95(obs) in obs
              && AtMostCount(obs, P95(obs)) >= r && AtLeastCount(obs, P95(obs)) >= |obs| - r + 1
  {
    if obs == [] {
    } else {
      RankedInSorted(obs);
    }
  }

  lemma CopiesGrow(v: real, n: nat)
    ensures seq(n + 1, i => v) == [v] + seq(n, i => v)
  {
  }

  lemma {:induction false} LevelIsCopies(s: seq<real>, v: real)
    ensures Level(s, Itself, v) == seq(multiset(s)[v], i => v)
  {
    if s == [] {
    } else {
      var n := multiset(s[1..])[v];
      LevelIsCopies(s[1..], v);
      assert s == [s[0]] + s[1..];
      assert multiset(s)[v] == if s[0] == v then n + 1 else n;
      CopiesGrow(v, n);
    }
  }

  /** The order in which observations were recorded plays no part. */
  lemma P95IgnoresOrder(a: seq<real>, b: seq<real>)
    requires multiset(a) == multiset(b)
    ensures P95(a) == P95(b)
  {
    forall v ensures Level(a, Itself, v) == Level(b, Itself, v) {
      LevelIsCopies(a, v);
      LevelIsCopies(b, v);
    }
    SameLevelsSortAlike(a, b, Itself);
    assert |multiset(a)| == |multiset(b)|;
  }

  // ----- The objects -----

  class Counter {
    var counts: Counts

    constructor ()
      ensures counts == map[]
    {
      counts := map[];
    }

    method Add(a: Attrs)
      modifies this
      ensures counts == Bump(old(counts), Some(a))
    {
      counts := counts[a := At(counts, a) + 1];
    }

    function Get(a: Attrs): nat
      reads this
    {
      At(counts, a)
    }

    /** `sum(self._counts.values())`. */
    method Total() returns (total: nat)
      ensures total == SumWhere(counts, Any)
    {
      total := 0;
      var rest := counts;
      while rest != map[]
        invariant total + SumWhere(rest, Any) == SumWhere(counts, Any)
        decreases |rest|
      {
        var a :| a in rest;
        SumTakeOut(rest, Any, a);
        total := total + rest[a];
        rest := rest - {a};
      }
    }
  }

  class Histogram {
    var observations: seq<real>

    constructor ()
      ensures observations == []
    {
      observations := [];
    }

    method Observe(value: real)
      modifies this
      ensures observations == old(observations) + [value]
    {
      observations := observations + [value];
    }

    function Count(): nat
      reads this
    {
      |observations|
    }

    function Percentile95(): real
      reads this
    {
      P95(observations)
    }
  }

  /** The process-wide instruments. The ghost `log` is every execution recorded so far. */
  class Instruments {
    const executions: Counter
    const duration: Histogram
    const errors: Counter
    const timeouts: Counter
    const blocked: Counter
    ghost var log: seq<Execution>

    ghost function Parts(): set<object> {
      {this, executions, duration, errors, timeouts, blocked}
    }

    ghost predicate Valid()
      reads Parts()
    {
      && executions != errors && executions != timeouts && executions != blocked
      && errors != timeouts && errors != blocked && timeouts != blocked
      && executions.counts == CountsOf(log, ExecutionKey)
      && errors.counts == CountsOf(log, ErrorKey)
      && timeouts.counts == CountsOf(log, TimeoutKey)
      && blocked.counts == CountsOf(log, BlockedKey)
      && duration.observations == Durations(log)
    }

    constructor ()
      ensures Valid() && log == [] && fresh(Parts())
    {
      executions := new Counter();
      duration := new Histogram();
      errors := new Counter();
      timeouts := new Counter();
      blocked := new Counter();
      log := [];
    }

    method Record(e: Execution)
      requires Valid()
      modifies Parts()
      ensures Valid() && log == old(log) + [e]
    {
      executions.Add(Attrs(e.hook, Some(e.impl), Some(e.status)));
      duration.Observe(e.ms);
      match e.status {
        case StError => errors.Add(Attrs(e.hook, Some(e.impl), None));
        case StTimeout => timeouts.Add(Attrs(e.hook, None, None));
        case StBlocked => blocked.Add(Attrs(e.hook, Some(e.impl), None));
        case _ =>
      }
      log := log + [e];
      assert log[..|log| - 1] == old(log);
      assert duration.observations == Durations(log);
    }

    /** What the instruments report agrees with the log they were fed. */
    lemma ReportsAgree(hook: string, impl: string)
      requires Valid()
      ensures errors.Get(Attrs(hook, Some(impl), None)) == executions.Get(Attrs(hook, Some(impl), Some(StError)))
      ensures blocked.Get(Attrs(hook, Some(impl), None)) == executions.Get(Attrs(hook, Some(impl), Some(StBlocked)))
      ensures timeouts.Get(Attrs(hook, None, None)) ==
              SumWhere(executions.counts, (a: Attrs) => a.hook == hook && a.status == Some(StTimeout))
      ensures log != [] ==>
                && duration.Percentile95() in duration.observations
                && AtMostCount(duration.observations, duration.Percentile95()) >= Rank(|log|)
                && AtLeastCount(duration.observations, duration.Percentile95()) >= |log| - Rank(|log|) + 1
      ensures SumWhere(executions.counts, Any) == duration.Count() == |log|
      ensures SumWhere(errors.counts, Any) == SumWhere(executions.counts, IsError)
      ensures SumWhere(timeouts.counts, Any) == SumWhere(executions.counts, IsTimeout)
      ensures SumWhere(blocked.counts, Any) == SumWhere(executions.counts, IsBlocked)
    {
      AccountingIsConserved(log);
      DerivedCountersByKey(log, hook, impl);
      if log != [] {
        P95IsARank(Durations(log));
      }
    }
  }
}
