/** The in-memory sliding-window limiter of patterns.py. Nothing is awaited between eviction, test and
    append, so concurrent callers are an interleaving of atomic calls on a non-decreasing clock. */
module RateLimiter {
  import opened Prelude
  import opened Contexts

  datatype Config = Config(limit: int, window: real)

  datatype Call = Call(key: Value, at: real)

  /** `_windows`, a defaultdict of lists. */
  type Windows = map<Value, seq<real>>

  function Lookup(w: Windows, key: Value): seq<real> {
    if key in w then w[key] else []
  }

  /** The timestamps still inside the rolling window at `now`. */
  function Live(ts: seq<real>, now: real, window: real): (live: seq<real>)
    ensures |live| <= |ts|
  {
    if ts == [] then []
    else (if now - ts[0] < window then [ts[0]] else []) + Live(ts[1..], now, window)
  }

  /** One atomic call: evict, test, append. */
  function Step(cfg: Config, w: Windows, call: Call): (Windows, bool) {
    var kept := Live(Lookup(w, call.key), call.at, cfg.window);
    if |kept| >= cfg.limit then (w[call.key := kept], false)
    else (w[call.key := kept + [call.at]], true)
  }

  /** The limiter's state and all its decisions after a run of calls. */
  function Run(cfg: Config, calls: seq<Call>): (r: (Windows, seq<bool>))
    ensures |r.1| == |calls|
  {
    if calls == [] then (map[], [])
    else
      var (w, decisions) := Run(cfg, calls[..|calls| - 1]);
      var (w', admitted) := Step(cfg, w, calls[|calls| - 1]);
      (w', decisions + [admitted])
  }

  function Decisions(cfg: Config, calls: seq<Call>): (d: seq<bool>)
    ensures |d| == |calls|
  {
    Run(cfg, calls).1
  }

  /** The instants at which `decisions` admit a call for `key`. */
  function Admitted(calls: seq<Call>, decisions: seq<bool>, key: Value): (ts: seq<real>)
    requires |calls| == |decisions|
    ensures |ts| <= |calls|
  {
    if calls == [] then []
    else
      var n := |calls| - 1;
      Admitted(calls[..n], decisions[..n], key) +
      (if decisions[n] && calls[n].key == key then [calls[n].at] else [])
  }

  ghost predicate Monotone(calls: seq<Call>) {
    forall i, j | 0 <= i < j < |calls| :: calls[i].at <= calls[j].at
  }

  lemma RunSnoc(cfg: Config, calls: seq<Call>, call: Call)
    ensures Run(cfg, calls + [call]).0 == Step(cfg, Run(cfg, calls).0, call).0
    ensures Decisions(cfg, calls + [call]) == Decisions(cfg, calls) + [Step(cfg, Run(cfg, calls).0, call).1]
  {
    assert (calls + [call])[..|calls|] == calls;
  }

  lemma AdmittedSnoc(calls: seq<Call>, decisions: seq<bool>, call: Call, d: bool, key: Value)
    requires |calls| == |decisions|
    ensures Admitted(calls + [call], decisions + [d], key) ==
            Admitted(calls, decisions, key) + (if d && call.key == key then [call.at] else [])
  {
    assert (calls + [call])[..|calls|] == calls;
    assert (decisions + [d])[..|calls|] == decisions;
  }

  lemma {:induction false} DecisionsPrefix(cfg: Config, calls: seq<Call>, n: nat)
    requires n <= |calls|
    ensures Decisions(cfg, calls[..n]) == Decisions(cfg, calls)[..n]
    decreases |calls|
  {
    if n < |calls| {
      var m := |calls| - 1;
      assert calls[..m][..n] == calls[..n];
      DecisionsPrefix(cfg, calls[..m], n);
      assert Decisions(cfg, calls)[..m] == Decisions(cfg, calls[..m]);
      assert Decisions(cfg, calls)[..n] == Decisions(cfg, calls)[..m][..n];
    } else {
      assert calls[..n] == calls;
    }
  }

  // ----- Eviction loses nothing -----

  lemma {:induction false} LiveAppend(s: seq<real>, t: seq<real>, now: real, window: real)
    ensures Live(s + t, now, window) == Live(s, now, window) + Live(t, now, window)
  {
    if s == [] {
      assert s + t == t;
    } else {
      var head := if now - s[0] < window then [s[0]] else [];
      assert (s + t)[1..] == s[1..] + t;
      calc {
        Live(s + t, now, window);
        head + Live(s[1..] + t, now, window);
        { LiveAppend(s[1..], t, now, window); }
        head + (Live(s[1..], now, window) + Live(t, now, window));
        (head + Live(s[1..], now, window)) + Live(t, now, window);
      }
    }
  }

  lemma LiveSnoc(s: seq<real>, t: real, now: real, window: real)
    ensures Live(s + [t], now, window) == Live(s, now, window) + (if now - t < window then [t] else [])
  {
    LiveAppend(s, [t], now, window);
  }

  /** Evicting early and again later is evicting once, later. */
  lemma {:induction false} LiveTwice(ts: seq<real>, early: real, late: real, window: real)
    requires early <= late
    ensures Live(Live(ts, early, window), late, window) == Live(ts, late, window)
  {
    if ts == [] {
    } else {
      LiveTwice(ts[1..], early, late, window);
      var head := if early - ts[0] < window then [ts[0]] else [];
      LiveAppend(head, Live(ts[1..], early, window), late, window);
    }
  }

  /** The limiter that never evicts: it decides from the complete admission history. */
  function FullHistoryDecisions(cfg: Config, calls: seq<Call>): (d: seq<bool>)
    ensures |d| == |calls|
  {
    if calls == [] then []
    else
      var n := |calls| - 1;
      var before := FullHistoryDecisions(cfg, calls[..n]);
      before + [|Live(Admitted(calls[..n], before, calls[n].key), calls[n].at, cfg.window)| < cfg.limit]
  }

  /** From instant `now` on, the pruned list of every key shows the same live timestamps as its history. */
  ghost predicate Covers(cfg: Config, calls: seq<Call>, now: real) {
    forall key, t | now <= t ::
      Live(Lookup(Run(cfg, calls).0, key), t, cfg.window) ==
      Live(Admitted(calls, Decisions(cfg, calls), key), t, cfg.window)
  }

  lemma {:induction false} CoversSnoc(cfg: Config, calls: seq<Call>, call: Call, since: real)
    requires Covers(cfg, calls, since) && since <= call.at
    ensures Covers(cfg, calls + [call], call.at)
  {
    var w := Run(cfg, calls).0;
    RunSnoc(cfg, calls, call);
    var (w', d) := Step(cfg, w, call);
    forall key, t | call.at <= t
      ensures Live(Lookup(w', key), t, cfg.window) ==
              Live(Admitted(calls + [call], Decisions(cfg, calls) + [d], key), t, cfg.window)
    {
      var history := Admitted(calls, Decisions(cfg, calls), key);
      AdmittedSnoc(calls, Decisions(cfg, calls), call, d, key);
      assert Live(Lookup(w, key), t, cfg.window) == Live(history, t, cfg.window);
      if key == call.key {
        var kept := Live(Lookup(w, key), call.at, cfg.window);
        LiveTwice(Lookup(w, key), call.at, t, cfg.window);
        LiveAppend(kept, [call.at], t, cfg.window);
        LiveAppend(history, [call.at], t, cfg.window);
      }
      assert history + [] == history;
    }
  }

  lemma CoversDecides(cfg: Config, calls: seq<Call>, call: Call, since: real)
    requires Covers(cfg, calls, since) && since <= call.at
    ensures Step(cfg, Run(cfg, calls).0, call).1 <==>
            |Live(Admitted(calls, Decisions(cfg, calls), call.key), call.at, cfg.window)| < cfg.limit
  {
    assert Live(Lookup(Run(cfg, calls).0, call.key), call.at, cfg.window) ==
           Live(Admitted(calls, Decisions(cfg, calls), call.key), call.at, cfg.window);
  }

  lemma FullHistorySnoc(cfg: Config, calls: seq<Call>, call: Call)
    ensures var d := FullHistoryDecisions(cfg, calls);
            FullHistoryDecisions(cfg, calls + [call]) ==
            d + [|Live(Admitted(calls, d, call.key), call.at, cfg.window)| < cfg.limit]
  {
    assert (calls + [call])[..|calls|] == calls;
  }

  ghost predicate Refined(cfg: Config, calls: seq<Call>) {
    && Decisions(cfg, calls) == FullHistoryDecisions(cfg, calls)
    && (calls != [] ==> Covers(cfg, calls, calls[|calls| - 1].at))
  }

  lemma RefinedSnoc(cfg: Config, calls: seq<Call>, call: Call)
    requires Refined(cfg, calls) && (calls != [] ==> calls[|calls| - 1].at <= call.at)
    ensures Refined(cfg, calls + [call])
  {
    var since := if calls == [] then call.at else calls[|calls| - 1].at;
    assert Covers(cfg, calls, since);
    CoversSnoc(cfg, calls, call, since);
    CoversDecides(cfg, calls, call, since);
    RunSnoc(cfg, calls, call);
    FullHistorySnoc(cfg, calls, call);
  }

  lemma {:induction false} AlwaysRefined(cfg: Config, calls: seq<Call>)
    requires Monotone(calls)
    ensures Refined(cfg, calls)
  {
    if calls == [] {
    } else {
      var n := |calls| - 1;
      var before, call := calls[..n], calls[n];
      AlwaysRefined(cfg, before);
      RefinedSnoc(cfg, before, call);
      assert calls == before + [call];
    }
  }

  /** Pruning decides every call of every run exactly as the full history would, and at the end each
      pruned list still shows every later instant what the history would show it. */
  lemma EvictionRefinesFullHistory(cfg: Config, calls: seq<Call>)
    requires Monotone(calls)
    ensures Decisions(cfg, calls) == FullHistoryDecisions(cfg, calls)
    ensures calls != [] ==> Covers(cfg, calls, calls[|calls| - 1].at)
  {
    AlwaysRefined(cfg, calls);
  }

  ghost predicate Ascending(ts: seq<real>) {
    forall i, j | 0 <= i < j < |ts| :: ts[i] <= ts[j]
  }

  function Max0(n: int): nat {
    if n < 0 then 0 else n
  }

  lemma {:induction false} LiveIsWithin(ts: seq<real>, now: real, window: real, t: real)
    ensures t in Live(ts, now, window) <==> t in ts && now - t < window
  {
    if ts == [] {
    } else {
      LiveIsWithin(ts[1..], now, window, t);
    }
  }

  lemma {:induction false} LiveKeepsAscending(ts: seq<real>, now: real, window: real)
    requires Ascending(ts)
    ensures Ascending(Live(ts, now, window))
  {
    if ts == [] {
    } else {
      LiveKeepsAscending(ts[1..], now, window);
      var rest := Live(ts[1..], now, window);
      forall j | 0 <= j < |rest| ensures ts[0] <= rest[j] {
        assert rest[j] in rest;
        LiveIsWithin(ts[1..], now, window, rest[j]);
      }
    }
  }

  ghost predicate Small(cfg: Config, ts: seq<real>, now: real) {
    Ascending(ts) && |ts| <= Max0(cfg.limit) && forall i | 0 <= i < |ts| :: ts[i] <= now
  }

  lemma StepKeepsSmall(cfg: Config, w: Windows, call: Call, key: Value, before: real)
    requires Small(cfg, Lookup(w, key), before) && before <= call.at
    ensures Small(cfg, Lookup(Step(cfg, w, call).0, key), call.at)
  {
    var ts := Lookup(w, key);
    var kept := Live(ts, call.at, cfg.window);
    LiveKeepsAscending(ts, call.at, cfg.window);
    forall i | 0 <= i < |kept| ensures kept[i] <= call.at {
      assert kept[i] in kept;
      LiveIsWithin(ts, call.at, cfg.window, kept[i]);
    }
  }

  /** Every stored list is ascending, holds nothing from the future, and is no longer than the limit. */
  lemma {:induction false} WindowsStaySmall(cfg: Config, calls: seq<Call>, key: Value)
    requires Monotone(calls) && calls != []
    ensures Small(cfg, Lookup(Run(cfg, calls).0, key), calls[|calls| - 1].at)
  {
    var n := |calls| - 1;
    if n == 0 {
      assert calls[..n] == [];
      StepKeepsSmall(cfg, map[], calls[n], key, calls[n].at);
    } else {
      WindowsStaySmall(cfg, calls[..n], key);
      StepKeepsSmall(cfg, Run(cfg, calls[..n]).0, calls[n], key, calls[n - 1].at);
    }
  }

  /** After a call the list of its key is exactly what of the admission history was still inside the window,
      and the call itself if it was admitted; the lists of other keys are as they were. */
  lemma WindowExactly(cfg: Config, calls: seq<Call>, key: Value)
    requires Monotone(calls) && calls != []
    ensures var n := |calls| - 1;
            var d := Decisions(cfg, calls);
            Lookup(Run(cfg, calls).0, key) ==
            if key == calls[n].key then
              Live(Admitted(calls[..n], d[..n], key), calls[n].at, cfg.window) + (if d[n] then [calls[n].at] else [])
            else Lookup(Run(cfg, calls[..n]).0, key)
  {
    var n := |calls| - 1;
    var before, last := calls[..n], calls[n];
    assert calls == before + [last];
    RunSnoc(cfg, before, last);
    AlwaysRefined(cfg, before);
    if before == [] {
    } else {
      assert Live(Lookup(Run(cfg, before).0, key), last.at, cfg.window) ==
             Live(Admitted(before, Decisions(cfg, before), key), last.at, cfg.window);
    }
  }

  // ----- Keys do not interfere -----

  function OnlyKey(calls: seq<Call>, key: Value): seq<Call> {
    if calls == [] then []
    else
      var n := |calls| - 1;
      OnlyKey(calls[..n], key) + (if calls[n].key == key then [calls[n]] else [])
  }

  /** The decisions that fall on calls of `key`. */
  function DecisionsFor(calls: seq<Call>, decisions: seq<bool>, key: Value): seq<bool>
    requires |calls| == |decisions|
  {
    if calls == [] then []
    else
      var n := |calls| - 1;
      DecisionsFor(calls[..n], decisions[..n], key) + (if calls[n].key == key then [decisions[n]] else [])
  }

  /** The run without the calls of other keys agrees with the whole run on this key. */
  ghost predicate AgreesOnKey(cfg: Config, calls: seq<Call>, key: Value) {
    && Decisions(cfg, OnlyKey(calls, key)) == DecisionsFor(calls, Decisions(cfg, calls), key)
    && Lookup(Run(cfg, OnlyKey(calls, key)).0, key) == Lookup(Run(cfg, calls).0, key)
  }

  lemma OnlyKeySnoc(calls: seq<Call>, d: seq<bool>, call: Call, admitted: bool, key: Value)
    requires |calls| == |d|
    ensures OnlyKey(calls + [call], key) == OnlyKey(calls, key) + (if call.key == key then [call] else [])
    ensures DecisionsFor(calls + [call], d + [admitted], key) ==
            DecisionsFor(calls, d, key) + (if call.key == key then [admitted] else [])
  {
    assert (calls + [call])[..|calls|] == calls && (d + [admitted])[..|d|] == d;
  }

  /** A step looks at and changes the list of its own key only. */
  lemma StepIsLocal(cfg: Config, v: Windows, w: Windows, call: Call, key: Value)
    requires Lookup(v, key) == Lookup(w, key)
    ensures call.key == key ==> Step(cfg, v, call).1 == Step(cfg, w, call).1
    ensures call.key == key ==> Lookup(Step(cfg, v, call).0, key) == Lookup(Step(cfg, w, call).0, key)
    ensures call.key != key ==> Lookup(v, key) == Lookup(Step(cfg, w, call).0, key)
  {
  }

  lemma SameKeySnoc(cfg: Config, calls: seq<Call>, call: Call, key: Value, only: seq<Call>)
    requires AgreesOnKey(cfg, calls, key) && call.key == key && only == OnlyKey(calls, key)
    ensures AgreesOnKey(cfg, calls + [call], key)
  {
    var v, w := Run(cfg, only).0, Run(cfg, calls).0;
    RunSnoc(cfg, calls, call);
    RunSnoc(cfg, only, call);
    StepIsLocal(cfg, v, w, call, key);
    OnlyKeySnoc(calls, Decisions(cfg, calls), call, Step(cfg, w, call).1, key);
  }

  lemma OtherKeySnoc(cfg: Config, calls: seq<Call>, call: Call, key: Value, only: seq<Call>)
    requires AgreesOnKey(cfg, calls, key) && call.key != key && only == OnlyKey(calls, key)
    ensures AgreesOnKey(cfg, calls + [call], key)
  {
    var v, w := Run(cfg, only).0, Run(cfg, calls).0;
    RunSnoc(cfg, calls, call);
    StepIsLocal(cfg, v, w, call, key);
    OnlyKeySnoc(calls, Decisions(cfg, calls), call, Step(cfg, w, call).1, key);
    assert OnlyKey(calls + [call], key) == only;
  }

  lemma {:induction false} AlwaysAgreesOnKey(cfg: Config, calls: seq<Call>, key: Value)
    ensures AgreesOnKey(cfg, calls, key)
  {
    if calls == [] {
    } else {
      var n := |calls| - 1;
      AlwaysAgreesOnKey(cfg, calls[..n], key);
      if calls[n].key == key {
        SameKeySnoc(cfg, calls[..n], calls[n], key, OnlyKey(calls[..n], key));
      } else {
        OtherKeySnoc(cfg, calls[..n], calls[n], key, OnlyKey(calls[..n], key));
      }
      assert calls == calls[..n] + [calls[n]];
    }
  }

  /** Deleting every call of every other key changes no decision for `key`, on any clock. */
  lemma KeysAreIndependent(cfg: Config, calls: seq<Call>, key: Value)
    ensures Decisions(cfg, OnlyKey(calls, key)) == DecisionsFor(calls, Decisions(cfg, calls), key)
    ensures Lookup(Run(cfg, OnlyKey(calls, key)).0, key) == Lookup(Run(cfg, calls).0, key)
  {
    AlwaysAgreesOnKey(cfg, calls, key);
  }

  // ----- The admission rule, over a whole run -----

  /** How many of the first n calls are admitted calls for `key`. */
  function Taken(calls: seq<Call>, d: seq<bool>, key: Value, n: nat): nat
    requires n <= |calls| == |d|
  {
    if n == 0 then 0
    else Taken(calls, d, key, n - 1) + (if d[n - 1] && calls[n - 1].key == key then 1 else 0)
  }

  /** How many of these are still live at `now`. */
  function LiveTaken(calls: seq<Call>, d: seq<bool>, key: Value, n: nat, now: real, window: real): nat
    requires n <= |calls| == |d|
  {
    if n == 0 then 0
    else
      LiveTaken(calls, d, key, n - 1, now, window) +
      (if d[n - 1] && calls[n - 1].key == key && now - calls[n - 1].at < window then 1 else 0)
  }

  /** The limiter's rule on the whole run: admit exactly when fewer than `limit` admissions are live. */
  ghost predicate FollowsRule(cfg: Config, calls: seq<Call>, d: seq<bool>) {
    |calls| == |d| && forall n | 0 <= n < |calls| :: RuleAt(cfg, calls, d, n)
  }

  predicate RuleAt(cfg: Config, calls: seq<Call>, d: seq<bool>, n: nat)
    requires n < |calls| == |d|
  {
    d[n] <==> LiveTaken(calls, d, calls[n].key, n, calls[n].at, cfg.window) < cfg.limit
  }

  lemma AdmittedStep(calls: seq<Call>, d: seq<bool>, key: Value, n: nat)
    requires 0 < n <= |calls| == |d|
    ensures Admitted(calls[..n], d[..n], key) ==
            Admitted(calls[..n - 1], d[..n - 1], key) +
            (if d[n - 1] && calls[n - 1].key == key then [calls[n - 1].at] else [])
  {
    assert calls[..n][..n - 1] == calls[..n - 1] && d[..n][..n - 1] == d[..n - 1];
  }

  lemma {:induction false} TakenCounts(calls: seq<Call>, d: seq<bool>, key: Value, n: nat)
    requires n <= |calls| == |d|
    ensures Taken(calls, d, key, n) == |Admitted(calls[..n], d[..n], key)|
  {
    if n == 0 {
    } else {
      TakenCounts(calls, d, key, n - 1);
      AdmittedStep(calls, d, key, n);
    }
  }

  lemma {:induction false} LiveTakenCounts(calls: seq<Call>, d: seq<bool>, key: Value, n: nat, now: real, window: real)
    requires n <= |calls| == |d|
    ensures LiveTaken(calls, d, key, n, now, window) == |Live(Admitted(calls[..n], d[..n], key), now, window)|
  {
    if n == 0 {
    } else {
      var ts := Admitted(calls[..n - 1], d[..n - 1], key);
      LiveTakenCounts(calls, d, key, n - 1, now, window);
      AdmittedStep(calls, d, key, n);
      LiveSnoc(ts, calls[n - 1].at, now, window);
      assert ts + [] == ts;
    }
  }

  lemma {:induction false} FullHistoryPrefix(cfg: Config, calls: seq<Call>, n: nat)
    requires n <= |calls|
    ensures FullHistoryDecisions(cfg, calls)[..n] == FullHistoryDecisions(cfg, calls[..n])
    decreases |calls|
  {
    var m := |calls| - 1;
    if n <= m {
      FullHistoryPrefix(cfg, calls[..m], n);
      assert calls[..m][..n] == calls[..n];
      assert FullHistoryDecisions(cfg, calls)[..n] == FullHistoryDecisions(cfg, calls[..m])[..n];
    } else {
      assert calls[..n] == calls;
    }
  }

  lemma FullHistoryFollowsRule(cfg: Config, calls: seq<Call>)
    ensures FollowsRule(cfg, calls, FullHistoryDecisions(cfg, calls))
  {
    var d := FullHistoryDecisions(cfg, calls);
    forall n | 0 <= n < |calls|
      ensures RuleAt(cfg, calls, d, n)
    {
      FullHistoryPrefix(cfg, calls, n);
      FullHistoryPrefix(cfg, calls, n + 1);
      assert d[..n + 1][n] == d[n];
      assert calls[..n + 1][..n] == calls[..n];
      LiveTakenCounts(calls, d, calls[n].key, n, calls[n].at, cfg.window);
    }
  }

  /** So does the limiter itself. */
  lemma DecisionsFollowRule(cfg: Config, calls: seq<Call>)
    requires Monotone(calls)
    ensures FollowsRule(cfg, calls, Decisions(cfg, calls))
  {
    EvictionRefinesFullHistory(cfg, calls);
    FullHistoryFollowsRule(cfg, calls);
  }

  // ----- The window cap -----

  /** How many of the first n calls are admitted calls for `key` in [lo, hi). */
  function TakenIn(calls: seq<Call>, d: seq<bool>, key: Value, n: nat, lo: real, hi: real): nat
    requires n <= |calls| == |d|
  {
    if n == 0 then 0
    else
      TakenIn(calls, d, key, n - 1, lo, hi) +
      (if d[n - 1] && calls[n - 1].key == key && lo <= calls[n - 1].at < hi then 1 else 0)
  }

  /** How many calls for `key` the decisions admit in [a, a + window). */
  function InWindow(cfg: Config, calls: seq<Call>, d: seq<bool>, key: Value, a: real): nat
    requires |calls| == |d|
  {
    TakenIn(calls, d, key, |calls|, a, a + cfg.window)
  }

  /** A policy's decisions keep every key to the limit in every half-open window. */
  ghost predicate Capped(cfg: Config, calls: seq<Call>, d: seq<bool>)
    requires |calls| == |d|
  {
    forall key, a :: InWindow(cfg, calls, d, key, a) <= Max0(cfg.limit)
  }

  lemma {:induction false} WindowIsLive(calls: seq<Call>, d: seq<bool>, key: Value, n: nat, a: real, now: real,
                                        window: real)
    requires n <= |calls| == |d| && now < a + window
    ensures TakenIn(calls, d, key, n, a, a + window) <= LiveTaken(calls, d, key, n, now, window)
  {
    if n == 0 {
    } else {
      WindowIsLive(calls, d, key, n - 1, a, now, window);
    }
  }

  lemma {:induction false} RuleCaps(cfg: Config, calls: seq<Call>, d: seq<bool>, key: Value, n: nat, a: real)
    requires n <= |calls| && FollowsRule(cfg, calls, d)
    ensures TakenIn(calls, d, key, n, a, a + cfg.window) <= Max0(cfg.limit)
  {
    if n == 0 {
    } else {
      RuleCaps(cfg, calls, d, key, n - 1, a);
      assert RuleAt(cfg, calls, d, n - 1);
      if calls[n - 1].key == key && a <= calls[n - 1].at < a + cfg.window {
        WindowIsLive(calls, d, key, n - 1, a, calls[n - 1].at, cfg.window);
      }
    }
  }

  /** Over every run, every key and every instant, at most max(limit, 0) calls are admitted in
      [a, a + window). What the wrapped body does afterwards plays no part. */
  lemma WindowCap(cfg: Config, calls: seq<Call>)
    requires Monotone(calls)
    ensures Capped(cfg, calls, Decisions(cfg, calls))
  {
    DecisionsFollowRule(cfg, calls);
    forall key, a ensures InWindow(cfg, calls, Decisions(cfg, calls), key, a) <= Max0(cfg.limit) {
      RuleCaps(cfg, calls, Decisions(cfg, calls), key, |calls|, a);
    }
  }

  // ----- Greedy admission is optimal -----

  predicate AheadAt(calls: seq<Call>, d: seq<bool>, rival: seq<bool>, key: Value, m: nat)
    requires m <= |calls| == |d| == |rival|
  {
    Taken(calls, rival, key, m) <= Taken(calls, d, key, m)
  }

  /** All admissions at indices p to m - 1 count for a window that contains their instants. */
  lemma {:induction false} RangeInWindow(calls: seq<Call>, d: seq<bool>, key: Value, p: nat, m: nat, lo: real, hi: real)
    requires p <= m <= |calls| == |d|
    requires forall j | p <= j < m :: lo <= calls[j].at < hi
    ensures Taken(calls, d, key, m) <= Taken(calls, d, key, p) + TakenIn(calls, d, key, m, lo, hi)
  {
    if p == m {
    } else {
      RangeInWindow(calls, d, key, p, m - 1, lo, hi);
    }
  }

  lemma {:induction false} TakenInGrows(calls: seq<Call>, d: seq<bool>, key: Value, m: nat, n: nat, lo: real, hi: real)
    requires m <= n <= |calls| == |d|
    ensures TakenIn(calls, d, key, m, lo, hi) <= TakenIn(calls, d, key, n, lo, hi)
  {
    if m == n {
    } else {
      TakenInGrows(calls, d, key, m, n - 1, lo, hi);
    }
  }

  /** If the calls before p are stale at `now` and those from p on are live, the live admissions are
      exactly those from p on. */
  lemma {:induction false} LiveIsSuffix(calls: seq<Call>, d: seq<bool>, key: Value, p: nat, n: nat, now: real,
                                        window: real)
    requires p <= n <= |calls| == |d|
    requires forall j | 0 <= j < p :: !(now - calls[j].at < window)
    requires forall j | p <= j < n :: now - calls[j].at < window
    ensures LiveTaken(calls, d, key, n, now, window) == Taken(calls, d, key, n) - Taken(calls, d, key, p)
  {
    if n == 0 {
    } else {
      LiveIsSuffix(calls, d, key, if p == n then p - 1 else p, n - 1, now, window);
    }
  }

  /** The first of the first n calls that is still live at `now`. */
  lemma FirstLive(calls: seq<Call>, n: nat, now: real, window: real) returns (p: nat)
    requires Monotone(calls) && n <= |calls|
    ensures p <= n
    ensures forall j | 0 <= j < p :: !(now - calls[j].at < window)
    ensures forall j | p <= j < n :: now - calls[j].at < window
  {
    p := n;
    while p > 0 && now - calls[p - 1].at < window
      invariant p <= n
      invariant forall j | p <= j < n :: now - calls[j].at < window
    {
      p := p - 1;
    }
  }

  ghost predicate Effective(cfg: Config) {
    cfg.window > 0.0 || cfg.limit > 0
  }

  /** A refusal of call n means that the limit was used up since some call p, and that all calls from p
      to n fit in one window. */
  lemma RefusalMeansFull(cfg: Config, calls: seq<Call>, d: seq<bool>, n: nat) returns (p: nat, a: real)
    requires n < |calls| && Monotone(calls) && Effective(cfg) && FollowsRule(cfg, calls, d) && !d[n]
    ensures p <= n
    ensures forall j | p <= j <= n :: a <= calls[j].at < a + cfg.window
    ensures Taken(calls, d, calls[n].key, p) + Max0(cfg.limit) <= Taken(calls, d, calls[n].key, n)
  {
    p := FirstLive(calls, n, calls[n].at, cfg.window);
    a := calls[p].at;
    LiveIsSuffix(calls, d, calls[n].key, p, n, calls[n].at, cfg.window);
    assert RuleAt(cfg, calls, d, n);
    assert p < n ==> calls[n].at - calls[p].at < cfg.window;
    assert p == n ==> LiveTaken(calls, d, calls[n].key, n, calls[n].at, cfg.window) == 0;
  }

  lemma CapOnRange(cfg: Config, calls: seq<Call>, rival: seq<bool>, key: Value, p: nat, m: nat, a: real)
    requires p < m <= |calls| == |rival| && Capped(cfg, calls, rival)
    requires forall j | p <= j < m :: a <= calls[j].at < a + cfg.window
    ensures Taken(calls, rival, key, m) <= Taken(calls, rival, key, p) + Max0(cfg.limit)
  {
    RangeInWindow(calls, rival, key, p, m, a, a + cfg.window);
    TakenInGrows(calls, rival, key, m, |calls|, a, a + cfg.window);
    assert InWindow(cfg, calls, rival, key, a) <= Max0(cfg.limit);
  }

  /** If call n is refused, no capped rival can pull ahead by admitting it. */
  lemma RefusalCostsNothing(cfg: Config, calls: seq<Call>, greedy: seq<bool>, rival: seq<bool>, n: nat)
    requires n < |calls| == |rival| && Monotone(calls) && Effective(cfg)
    requires FollowsRule(cfg, calls, greedy) && Capped(cfg, calls, rival)
    requires !greedy[n]
    requires forall m | 0 <= m <= n :: AheadAt(calls, greedy, rival, calls[n].key, m)
    ensures Taken(calls, rival, calls[n].key, n + 1) <= Taken(calls, greedy, calls[n].key, n)
  {
    var p, a := RefusalMeansFull(cfg, calls, greedy, n);
    CapOnRange(cfg, calls, rival, calls[n].key, p, n + 1, a);
    assert AheadAt(calls, greedy, rival, calls[n].key, p);
  }

  lemma {:induction false} RuleStaysAhead(cfg: Config, calls: seq<Call>, greedy: seq<bool>, rival: seq<bool>,
                                          key: Value, n: nat)
    requires n <= |calls| == |rival| && Monotone(calls) && Effective(cfg)
    requires FollowsRule(cfg, calls, greedy) && Capped(cfg, calls, rival)
    ensures forall m | 0 <= m <= n :: AheadAt(calls, greedy, rival, key, m)
  {
    if n == 0 {
    } else {
      RuleStaysAhead(cfg, calls, greedy, rival, key, n - 1);
      assert AheadAt(calls, greedy, rival, key, n - 1);
      if calls[n - 1].key == key && !greedy[n - 1] {
        RefusalCostsNothing(cfg, calls, greedy, rival, n - 1);
      }
    }
  }

  /** No policy that respects the cap has, at any point of any run, admitted more calls for a key. */
  lemma GreedyStaysAhead(cfg: Config, calls: seq<Call>, rival: seq<bool>, key: Value, n: nat)
    requires n <= |calls| == |rival|
    requires Monotone(calls) && Capped(cfg, calls, rival) && Effective(cfg)
    ensures |Admitted(calls[..n], rival[..n], key)| <= |Admitted(calls[..n], Decisions(cfg, calls)[..n], key)|
  {
    var greedy := Decisions(cfg, calls);
    DecisionsFollowRule(cfg, calls);
    RuleStaysAhead(cfg, calls, greedy, rival, key, n);
    assert AheadAt(calls, greedy, rival, key, n);
    TakenCounts(calls, rival, key, n);
    TakenCounts(calls, greedy, key, n);
  }

  lemma {:induction false} AdmittedSoFar(calls: seq<Call>, d: seq<bool>, key: Value, n: nat, k: nat)
    requires 0 < n <= |calls| == |d| && Monotone(calls)
    requires k < |Admitted(calls[..n], d[..n], key)|
    ensures Admitted(calls[..n], d[..n], key)[k] <= calls[n - 1].at
  {
    assert calls[..n][..n - 1] == calls[..n - 1] && d[..n][..n - 1] == d[..n - 1];
    if k == |Admitted(calls[..n - 1], d[..n - 1], key)| {
    } else {
      assert n - 1 > 0;
      AdmittedSoFar(calls, d, key, n - 1, k);
    }
  }

  lemma {:induction false} AheadIsNeverLater(calls: seq<Call>, d: seq<bool>, rival: seq<bool>, key: Value, n: nat,
                                             k: nat)
    requires n <= |calls| == |d| == |rival| && Monotone(calls)
    requires forall m | 0 <= m <= n ::
               |Admitted(calls[..m], rival[..m], key)| <= |Admitted(calls[..m], d[..m], key)|
    requires k < |Admitted(calls[..n], rival[..n], key)|
    ensures Admitted(calls[..n], d[..n], key)[k] <= Admitted(calls[..n], rival[..n], key)[k]
  {
    assert n > 0;
    assert calls[..n][..n - 1] == calls[..n - 1] && d[..n][..n - 1] == d[..n - 1];
    assert rival[..n][..n - 1] == rival[..n - 1];
    if k < |Admitted(calls[..n - 1], rival[..n - 1], key)| {
      AheadIsNeverLater(calls, d, rival, key, n - 1, k);
    } else {
      AdmittedSoFar(calls, d, key, n, k);
    }
  }

  /** The limiter's k-th admission of a key exists, and is never later, if a capped rival's k-th does. */
  lemma GreedyIsNeverLater(cfg: Config, calls: seq<Call>, rival: seq<bool>, key: Value, k: nat)
    requires |calls| == |rival|
    requires Monotone(calls) && Capped(cfg, calls, rival) && Effective(cfg)
    requires k < |Admitted(calls, rival, key)|
    ensures k < |Admitted(calls, Decisions(cfg, calls), key)|
    ensures Admitted(calls, Decisions(cfg, calls), key)[k] <= Admitted(calls, rival, key)[k]
  {
    var n, d := |calls|, Decisions(cfg, calls);
    forall m | 0 <= m <= n
      ensures |Admitted(calls[..m], rival[..m], key)| <= |Admitted(calls[..m], d[..m], key)|
    {
      GreedyStaysAhead(cfg, calls, rival, key, m);
    }
    assert calls[..n] == calls && rival[..n] == rival && d[..n] == d;
    AheadIsNeverLater(calls, d, rival, key, n, k);
  }

  /** Admissions over a set of keys. */
  function CountAdmitted(calls: seq<Call>, decisions: seq<bool>, keys: set<Value>): nat
    requires |calls| == |decisions|
  {
    if calls == [] then 0
    else
      var n := |calls| - 1;
      CountAdmitted(calls[..n], decisions[..n], keys) + (if decisions[n] && calls[n].key in keys then 1 else 0)
  }

  lemma {:induction false} CountSplits(calls: seq<Call>, d: seq<bool>, keys: set<Value>, key: Value)
    requires |calls| == |d| && key in keys
    ensures CountAdmitted(calls, d, keys) ==
            CountAdmitted(calls, d, keys - {key}) + |Admitted(calls, d, key)|
  {
    if calls == [] {
    } else {
      CountSplits(calls[..|calls| - 1], d[..|calls| - 1], keys, key);
    }
  }

  lemma {:induction false} CountOfNone(calls: seq<Call>, d: seq<bool>)
    requires |calls| == |d|
    ensures CountAdmitted(calls, d, {}) == 0
  {
    if calls == [] {
    } else {
      CountOfNone(calls[..|calls| - 1], d[..|calls| - 1]);
    }
  }

  /** The same over any set of keys at once, so over all the keys of the run. */
  lemma {:induction false} GreedyStaysAheadInTotal(cfg: Config, calls: seq<Call>, rival: seq<bool>, keys: set<Value>)
    requires |calls| == |rival|
    requires Monotone(calls) && Capped(cfg, calls, rival) && Effective(cfg)
    ensures CountAdmitted(calls, rival, keys) <= CountAdmitted(calls, Decisions(cfg, calls), keys)
    decreases keys
  {
    if keys == {} {
      CountOfNone(calls, rival);
    } else {
      var key :| key in keys;
      CountSplits(calls, rival, keys, key);
      CountSplits(calls, Decisions(cfg, calls), keys, key);
      GreedyStaysAhead(cfg, calls, rival, key, |calls|);
      assert calls[..|calls|] == calls && rival[..|calls|] == rival;
      assert Decisions(cfg, calls)[..|calls|] == Decisions(cfg, calls);
      GreedyStaysAheadInTotal(cfg, calls, rival, keys - {key});
    }
  }

  ghost predicate Beats(cfg: Config, calls: seq<Call>, rival: seq<bool>, key: Value)
    requires |calls| == |rival|
  {
    Capped(cfg, calls, rival) && |Admitted(calls, rival, key)| > |Admitted(calls, Decisions(cfg, calls), key)|
  }

  /** The limiter is unbeatable exactly when its window or its limit is positive. With neither, every
      window is empty, so admitting everything respects the cap, and yet the limiter refuses every call. */
  lemma OptimalExactlyWhenEffective(cfg: Config)
    ensures Effective(cfg) <==>
            forall calls: seq<Call>, rival: seq<bool>, key |
              Monotone(calls) && |calls| == |rival| :: !Beats(cfg, calls, rival, key)
  {
    if Effective(cfg) {
      forall calls: seq<Call>, rival: seq<bool>, key | Monotone(calls) && |calls| == |rival|
        ensures !Beats(cfg, calls, rival, key)
      {
        if Capped(cfg, calls, rival) {
          GreedyStaysAhead(cfg, calls, rival, key, |calls|);
          assert calls[..|calls|] == calls && rival[..|calls|] == rival;
          assert Decisions(cfg, calls)[..|calls|] == Decisions(cfg, calls);
        }
      }
    } else {
      var calls, rival := [Call(Null, 0.0)], [true];
      assert calls[..0] == [] && rival[..0] == [];
      forall key, a ensures InWindow(cfg, calls, rival, key, a) <= Max0(cfg.limit) {
        assert TakenIn(calls, rival, key, 0, a, a + cfg.window) == 0;
      }
      assert Beats(cfg, calls, rival, Null);
    }
  }

  // ----- The decorator's object -----

  /** What the wrapper does with a call. */
  datatype Verdict = Proceed | Refuse | PassThrough

  /** `(ctx.tenant_id or ctx.session_id)`, where an absent or empty tenant is falsy. */
  function KeyOf(perTenant: bool, c: Context): Value {
    var tenant := c.Attr("tenant_id");
    if perTenant && tenant != Null && tenant != Text("") then tenant else c.Attr("session_id")
  }

  predicate HasTenant(c: Context) {
    c.Attr("tenant_id").Text? && c.Attr("tenant_id").s != ""
  }

  predicate NoTenant(c: Context) {
    c.Attr("tenant_id") in {Null, Text("")}
  }

  /** Who shares a window under `per="tenant"`: callers of one tenant, tenantless callers of one session,
      and, since both kinds of name are keys of one dict, a tenant and a tenantless session called alike. */
  lemma WhoSharesAWindow(a: Context, b: Context)
    requires (HasTenant(a) || NoTenant(a)) && (HasTenant(b) || NoTenant(b))
    ensures HasTenant(a) && HasTenant(b) ==>
              (KeyOf(true, a) == KeyOf(true, b) <==> a.Attr("tenant_id") == b.Attr("tenant_id"))
    ensures NoTenant(a) && NoTenant(b) ==>
              (KeyOf(true, a) == KeyOf(true, b) <==> a.Attr("session_id") == b.Attr("session_id"))
    ensures HasTenant(a) && NoTenant(b) ==>
              (KeyOf(true, a) == KeyOf(true, b) <==> a.Attr("tenant_id") == b.Attr("session_id"))
    ensures KeyOf(false, a) == KeyOf(false, b) <==> a.Attr("session_id") == b.Attr("session_id")
  {
  }

  /** A call as its caller makes it. */
  datatype Visit = Visit(ctx: Context, at: real)

  function CallsOf(visits: seq<Visit>): (calls: seq<Call>)
    ensures |calls| == |visits|
  {
    seq(|visits|, i requires 0 <= i < |visits| => Call(KeyOf(true, visits[i].ctx), visits[i].at))
  }

  predicate OfTenant(v: Visit, tenant: string) {
    v.ctx.Attr("tenant_id") == Text(tenant)
  }

  function OnlyTenant(visits: seq<Visit>, tenant: string): seq<Visit> {
    if visits == [] then []
    else
      var n := |visits| - 1;
      OnlyTenant(visits[..n], tenant) + (if OfTenant(visits[n], tenant) then [visits[n]] else [])
  }

  /** The decisions that fall on the visits of a tenant. */
  function TenantDecisions(visits: seq<Visit>, decisions: seq<bool>, tenant: string): seq<bool>
    requires |visits| == |decisions|
  {
    if visits == [] then []
    else
      var n := |visits| - 1;
      TenantDecisions(visits[..n], decisions[..n], tenant) +
      (if OfTenant(visits[n], tenant) then [decisions[n]] else [])
  }

  /** No tenantless session among the visits is called like the tenant. */
  ghost predicate NoNamesake(visits: seq<Visit>, tenant: string) {
    forall i | 0 <= i < |visits| ::
      var c := visits[i].ctx;
      HasTenant(c) || (NoTenant(c) && c.Attr("session_id") != Text(tenant))
  }

  lemma {:induction false} TenantIsKey(visits: seq<Visit>, decisions: seq<bool>, tenant: string)
    requires tenant != "" && |visits| == |decisions| && NoNamesake(visits, tenant)
    ensures OnlyKey(CallsOf(visits), Text(tenant)) == CallsOf(OnlyTenant(visits, tenant))
    ensures DecisionsFor(CallsOf(visits), decisions, Text(tenant)) == TenantDecisions(visits, decisions, tenant)
  {
    if visits == [] {
    } else {
      var n := |visits| - 1;
      TenantIsKey(visits[..n], decisions[..n], tenant);
      assert CallsOf(visits)[..n] == CallsOf(visits[..n]);
      assert CallsOf(visits)[n].key == Text(tenant) <==> OfTenant(visits[n], tenant);
    }
  }

  /** Under `per="tenant"`, on any clock, deleting the visits of all other tenants and of all tenantless
      sessions changes no decision for a tenant, unless one of these sessions has the tenant's name. */
  lemma TenantsAreIsolated(cfg: Config, visits: seq<Visit>, tenant: string)
    requires tenant != "" && NoNamesake(visits, tenant)
    ensures Decisions(cfg, CallsOf(OnlyTenant(visits, tenant))) ==
            TenantDecisions(visits, Decisions(cfg, CallsOf(visits)), tenant)
  {
    TenantIsKey(visits, Decisions(cfg, CallsOf(visits)), tenant);
    KeysAreIndependent(cfg, CallsOf(visits), Text(tenant));
  }

  lemma SecondIsRefused(first: Call)
    requires first.at == 0.0
    ensures Decisions(Config(1, 60.0), [first, first]) == [true, false]
    ensures Decisions(Config(1, 60.0), [first]) == [true]
  {
    var cfg := Config(1, 60.0);
    assert [first, first] == [first] + [first] && [first] == [] + [first];
    RunSnoc(cfg, [], first);
    RunSnoc(cfg, [first], first);
    assert Lookup(Run(cfg, [first]).0, first.key) == [0.0];
  }

  lemma SecondIsOfTenant(session: Visit, visit: Visit, tenant: string, d: seq<bool>)
    requires !OfTenant(session, tenant) && OfTenant(visit, tenant) && |d| == 2
    ensures OnlyTenant([session, visit], tenant) == [visit]
    ensures TenantDecisions([session, visit], d, tenant) == [d[1]]
  {
    assert [session, visit][..1] == [session] && [session][..0] == [];
    assert OnlyTenant([session], tenant) == [];
    assert TenantDecisions([session], d[..1], tenant) == [];
  }

  /** A tenantless session named like a tenant takes that tenant's only slot. */
  lemma NamesakeTakesTheSlot(session: Context, acme: Context)
    requires session == Context(map["session_id" := Text("acme")], map[])
    requires acme == Context(map["tenant_id" := Text("acme"), "session_id" := Text("s")], map[])
    ensures var cfg, visits := Config(1, 60.0), [Visit(session, 0.0), Visit(acme, 0.0)];
            && TenantDecisions(visits, Decisions(cfg, CallsOf(visits)), "acme") == [false]
            && Decisions(cfg, CallsOf(OnlyTenant(visits, "acme"))) == [true]
  {
    var visits, call := [Visit(session, 0.0), Visit(acme, 0.0)], Call(Text("acme"), 0.0);
    assert CallsOf(visits) == [call, call] && CallsOf([visits[1]]) == [call];
    SecondIsRefused(call);
    SecondIsOfTenant(visits[0], visits[1], "acme", [true, false]);
  }

  /** On a non-decreasing clock the decisions respect the cap and are those of the full history. */
  ghost predicate Sound(cfg: Config, calls: seq<Call>) {
    Monotone(calls) ==>
      Capped(cfg, calls, Decisions(cfg, calls)) && Decisions(cfg, calls) == FullHistoryDecisions(cfg, calls)
  }

  lemma RunsAreSound(cfg: Config, calls: seq<Call>)
    ensures Sound(cfg, calls)
  {
    if Monotone(calls) {
      WindowCap(cfg, calls);
      EvictionRefinesFullHistory(cfg, calls);
    }
  }

  lemma SetTwice<K, V>(m: map<K, V>, k: K, u: V, v: V)
    ensures m[k := u][k := v] == m[k := v]
  {
  }

  /** Evict timestamps outside the window, test, and append if there is room. */
  method Admit(cfg: Config, windows: Windows, key: Value, now: real) returns (w: Windows, admitted: bool)
    ensures (w, admitted) == Step(cfg, windows, Call(key, now))
  {
    w := windows[key := Live(Lookup(windows, key), now, cfg.window)];
    if |w[key]| >= cfg.limit {
      admitted := false;
    } else {
      SetTwice(windows, key, w[key], w[key] + [now]);
      w := w[key := w[key] + [now]];
      admitted := true;
    }
  }

  /** One call more keeps the limiter's state the outcome of its whole past. */
  lemma Extend(cfg: Config, w: Windows, calls: seq<Call>, call: Call)
    requires w == Run(cfg, calls).0
    ensures Run(cfg, calls + [call]).0 == Step(cfg, w, call).0
    ensures Decisions(cfg, calls + [call]) == Decisions(cfg, calls) + [Step(cfg, w, call).1]
    ensures Sound(cfg, calls + [call])
  {
    RunSnoc(cfg, calls, call);
    RunsAreSound(cfg, calls + [call]);
  }

  /** One `@rate_limit(...)` invocation with its own `_windows`. The ghost `calls` is its whole past. */
  class Limiter {
    const cfg: Config
    const perTenant: bool
    const blocking: bool
    var windows: Windows
    ghost var calls: seq<Call>

    ghost predicate Valid()
      reads this
    {
      windows == Run(cfg, calls).0
    }

    constructor (cfg: Config, perTenant: bool, blocking: bool)
      ensures Valid() && calls == []
      ensures this.cfg == cfg && this.perTenant == perTenant && this.blocking == blocking
    {
      this.cfg, this.perTenant, this.blocking := cfg, perTenant, blocking;
      windows, calls := map[], [];
    }

    method Enter(c: Context, now: real) returns (v: Verdict)
      requires Valid()
      modifies this
      ensures Valid() && calls == old(calls) + [Call(KeyOf(perTenant, c), now)]
      ensures Decisions(cfg, calls) == Decisions(cfg, old(calls)) + [v.Proceed?]
      ensures v.Refuse? ==> blocking
      ensures v.PassThrough? ==> !blocking
      ensures windows == Step(cfg, old(windows), Call(KeyOf(perTenant, c), now)).0
      ensures Sound(cfg, calls)
    {
      var key := KeyOf(perTenant, c);
      Extend(cfg, windows, calls, Call(key, now));
      var admitted;
      windows, admitted := Admit(cfg, windows, key, now);
      v := if admitted then Proceed else if blocking then Refuse else PassThrough;
      calls := calls + [Call(key, now)];
    }
  }
}
