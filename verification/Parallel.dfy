/** Parallel runs: what the merge computes, and exactly when it agrees with a sequential run. */
module ParallelRuns {
  import opened Prelude
  import opened Contexts
  import opened Hooks
  import opened Sorting

  type Metadata = map<string, Value>

  // ----- The merge -----

  predicate Carries(impls: seq<Registration>, c: Context, i: nat, key: string)
    requires i < |impls|
  {
    key in Contribution(Step(impls[i], c))
  }

  lemma {:induction false} MergeSnoc(merged: Metadata, impls: seq<Registration>, reg: Registration, c: Context)
    ensures MergeResults(merged, impls + [reg], c) == MergeResults(merged, impls, c) + Contribution(Step(reg, c))
    decreases |impls|
  {
    if impls == [] {
      assert (impls + [reg])[1..] == [];
    } else {
      assert (impls + [reg])[1..] == impls[1..] + [reg];
      MergeSnoc(merged + Contribution(Step(impls[0], c)), impls[1..], reg, c);
    }
  }

  ghost predicate LastCarrier(impls: seq<Registration>, c: Context, i: nat, key: string) {
    i < |impls| && Carries(impls, c, i, key) && forall j | i < j < |impls| :: !Carries(impls, c, j, key)
  }

  /** Each merged key has the value given by the last ok hook, in list order, whose result carries it, or
      else the value it had. */
  lemma {:induction false} MergedValue(merged: Metadata, impls: seq<Registration>, c: Context, key: string)
    ensures key in MergeResults(merged, impls, c) <==>
            key in merged || exists i: nat :: LastCarrier(impls, c, i, key)
    ensures forall i: nat | LastCarrier(impls, c, i, key) ::
              key in MergeResults(merged, impls, c) &&
              MergeResults(merged, impls, c)[key] == Contribution(Step(impls[i], c))[key]
    ensures (forall i: nat :: !LastCarrier(impls, c, i, key)) && key in merged ==>
              MergeResults(merged, impls, c)[key] == merged[key]
    decreases |impls|
  {
    if impls == [] {
    } else {
      var n := |impls| - 1;
      var before, reg := impls[..n], impls[n];
      assert impls == before + [reg];
      MergeSnoc(merged, before, reg, c);
      MergedValue(merged, before, c, key);
      if Carries(impls, c, n, key) {
        assert LastCarrier(impls, c, n, key);
        assert forall i: nat | i < n :: !LastCarrier(impls, c, i, key);
      } else {
        forall i: nat ensures LastCarrier(impls, c, i, key) <==> LastCarrier(before, c, i, key) {
          CarrierOfPrefix(impls, c, i, key);
        }
      }
    }
  }

  lemma CarrierOfPrefix(impls: seq<Registration>, c: Context, i: nat, key: string)
    requires impls != [] && !Carries(impls, c, |impls| - 1, key)
    ensures LastCarrier(impls, c, i, key) <==> LastCarrier(impls[..|impls| - 1], c, i, key)
  {
    var n := |impls| - 1;
    assert forall j: nat | j < n :: Carries(impls, c, j, key) <==> Carries(impls[..n], c, j, key);
  }

  /** A parallel run changes nothing but metadata, whatever contexts the hooks return. */
  lemma OnlyMetadataIsMerged(impls: seq<Registration>, c: Context)
    ensures RunParallel(impls, c).attrs == c.attrs
    ensures SameSealed(c, RunParallel(impls, c))
    ensures (forall k :: k in RunParallel(impls, c).metadata <==>
                k in c.metadata || exists i: nat :: LastCarrier(impls, c, i, k))
  {
    forall k
      ensures k in RunParallel(impls, c).metadata <==>
              k in c.metadata || exists i: nat :: LastCarrier(impls, c, i, k)
    {
      MergedValue(c.metadata, impls, c, k);
    }
  }

  /** Hook i came out ok, with the key in the metadata of what it returned. */
  predicate Brings(impls: seq<Registration>, c: Context, i: nat, key: string)
    requires i < |impls|
  {
    impls[i].fn(c).outcome.Ok? && key in impls[i].fn(c).outcome.ctx.metadata
  }

  /** The merge in terms of what the hooks' functions return, all called with the input: for each key the
      value of the last one in list order that is ok and has it, or else the input's. */
  lemma ParallelExactly(impls: seq<Registration>, c: Context, key: string)
    ensures forall i: nat | i < |impls| && Brings(impls, c, i, key) &&
              (forall j | i < j < |impls| :: !Brings(impls, c, j, key)) ::
              Lookup(RunParallel(impls, c).metadata, key) == Some(impls[i].fn(c).outcome.ctx.metadata[key])
    ensures (forall i: nat | i < |impls| :: !Brings(impls, c, i, key)) ==>
              Lookup(RunParallel(impls, c).metadata, key) == Lookup(c.metadata, key)
    ensures RunParallel(impls, c).attrs == c.attrs
  {
    forall i: nat | i < |impls| ensures Brings(impls, c, i, key) <==> Carries(impls, c, i, key) {
    }
    MergedValue(c.metadata, impls, c, key);
    forall i: nat | i < |impls| && Brings(impls, c, i, key) && (forall j | i < j < |impls| :: !Brings(impls, c, j, key))
      ensures Lookup(RunParallel(impls, c).metadata, key) == Some(impls[i].fn(c).outcome.ctx.metadata[key])
    {
      assert LastCarrier(impls, c, i, key);
    }
  }

  /** A batch records one execution for each hook, all with the same input, in the order of completion. */
  lemma BatchRecorded(hook: string, impls: seq<Registration>, c: Context, order: seq<nat>)
    requires Permutation(order, |impls|)
    ensures |ParallelLog(hook, impls, c, order)| == |impls|
    ensures forall k | 0 <= k < |impls| :: Describes(ParallelLog(hook, impls, c, order)[k], hook, impls[order[k]], c)
  {
    forall k | 0 <= k < |impls|
      ensures Describes(ParallelLog(hook, impls, c, order)[k], hook, impls[order[k]], c)
    {
      RecordDescribes(hook, impls[order[k]], c, ParallelLog(hook, impls, c, order)[k]);
    }
  }

  // ----- Parallel against sequential -----

  /** What a hook writes into metadata; None for a hook that degrades. */
  type Delta = Option<Metadata>

  function Keys(d: Delta): set<string> {
    match d
    case None => {}
    case Some(m) => m.Keys
  }

  predicate AgreesOutside(a: Metadata, b: Metadata, w: set<string>) {
    a - w == b - w
  }

  /** On every context that differs from c in metadata under the keys of w only, the hook adds exactly d
      to the metadata it finds, or, with None, times out or fails and is degraded. */
  ghost predicate Writes(reg: Registration, c: Context, w: set<string>, d: Delta) {
    forall m | AgreesOutside(m, c.metadata, w) ::
      match d
      case Some(delta) => reg.fn(c.(metadata := m)).outcome == Ok(c.(metadata := m + delta))
      case None => reg.fallback && reg.fn(c.(metadata := m)).outcome in {Timeout, Error}
  }

  /** Every hook writes its delta, whatever the hooks before it wrote. */
  ghost predicate WriteAll(impls: seq<Registration>, c: Context, ws: seq<set<string>>, ds: seq<Delta>) {
    && |impls| == |ws| == |ds|
    && (forall i | 0 <= i < |impls| :: Writes(impls[i], c, ws[i], ds[i]))
    && (forall i, j | 0 <= i < j < |impls| :: Keys(ds[i]) <= ws[j])
  }

  function Added(d: Delta): Metadata {
    match d
    case None => map[]
    case Some(m) => m
  }

  function FoldDeltas(m: Metadata, ds: seq<Delta>): Metadata
    decreases |ds|
  {
    if ds == [] then m else FoldDeltas(m + Added(ds[0]), ds[1..])
  }

  /** The merge: each ok result carries the whole input besides its own delta. */
  function MergeDeltas(m: Metadata, input: Metadata, ds: seq<Delta>): Metadata
    decreases |ds|
  {
    if ds == [] then m
    else MergeDeltas(if ds[0].None? then m else m + (input + ds[0].value), input, ds[1..])
  }

  lemma {:induction false} SequentialFolds(impls: seq<Registration>, c: Context, ws: seq<set<string>>,
                                           ds: seq<Delta>, m: Metadata)
    requires WriteAll(impls, c, ws, ds)
    requires forall i | 0 <= i < |impls| :: AgreesOutside(m, c.metadata, ws[i])
    ensures RunSequential(impls, c.(metadata := m)) == Finished(c.(metadata := FoldDeltas(m, ds)))
    decreases |impls|
  {
    if impls == [] {
    } else {
      var m' := m + Added(ds[0]);
      assert Writes(impls[0], c, ws[0], ds[0]);
      assert AgreesOutside(m, c.metadata, ws[0]);
      assert Step(impls[0], c.(metadata := m)).Returned?;
      assert m + map[] == m;
      assert Step(impls[0], c.(metadata := m)).ctx == c.(metadata := m');
      forall i | 0 <= i < |impls[1..]| ensures AgreesOutside(m', c.metadata, ws[1..][i]) {
        assert AgreesOutside(m, c.metadata, ws[i + 1]);
        assert Keys(ds[0]) <= ws[i + 1];
        assert m' - ws[i + 1] == m - ws[i + 1];
      }
      SequentialFolds(impls[1..], c, ws[1..], ds[1..], m');
    }
  }

  lemma {:induction false} ParallelMerges(impls: seq<Registration>, c: Context, ws: seq<set<string>>,
                                          ds: seq<Delta>, m: Metadata)
    requires WriteAll(impls, c, ws, ds)
    ensures MergeResults(m, impls, c) == MergeDeltas(m, c.metadata, ds)
    decreases |impls|
  {
    if impls == [] {
    } else {
      assert Writes(impls[0], c, ws[0], ds[0]);
      assert AgreesOutside(c.metadata, c.metadata, ws[0]);
      assert c.(metadata := c.metadata) == c;
      assert m + map[] == m;
      assert Contribution(Step(impls[0], c)) == if ds[0].None? then map[] else c.metadata + ds[0].value;
      var m' := m + Contribution(Step(impls[0], c));
      ParallelMerges(impls[1..], c, ws[1..], ds[1..], m');
    }
  }

  /** The value last written under a key. */
  function LastWrite(ds: seq<Delta>, key: string): Option<Value> {
    if ds == [] then None
    else
      var n := |ds| - 1;
      if key in Added(ds[n]) then Some(Added(ds[n])[key]) else LastWrite(ds[..n], key)
  }

  /** What the last hook that does not degrade writes. */
  function LastDelta(ds: seq<Delta>): Delta {
    if ds == [] then None
    else
      var n := |ds| - 1;
      if ds[n].Some? then ds[n] else LastDelta(ds[..n])
  }

  function Lookup(m: Metadata, key: string): Option<Value> {
    if key in m then Some(m[key]) else None
  }

  function Or(a: Option<Value>, b: Option<Value>): Option<Value> {
    if a.Some? then a else b
  }

  lemma {:induction false} FoldSnoc(m: Metadata, ds: seq<Delta>, d: Delta)
    ensures FoldDeltas(m, ds + [d]) == FoldDeltas(m, ds) + Added(d)
    decreases |ds|
  {
    if ds == [] {
      assert (ds + [d])[1..] == [];
    } else {
      assert (ds + [d])[1..] == ds[1..] + [d];
      FoldSnoc(m + Added(ds[0]), ds[1..], d);
    }
  }

  lemma {:induction false} MergeDeltasSnoc(m: Metadata, input: Metadata, ds: seq<Delta>, d: Delta)
    ensures MergeDeltas(m, input, ds + [d]) ==
            if d.None? then MergeDeltas(m, input, ds) else MergeDeltas(m, input, ds) + (input + d.value)
    decreases |ds|
  {
    if ds == [] {
      assert (ds + [d])[1..] == [];
    } else {
      assert (ds + [d])[1..] == ds[1..] + [d];
      MergeDeltasSnoc(if ds[0].None? then m else m + (input + ds[0].value), input, ds[1..], d);
    }
  }

  lemma {:induction false} FoldedValue(m: Metadata, ds: seq<Delta>, key: string)
    ensures Lookup(FoldDeltas(m, ds), key) == Or(LastWrite(ds, key), Lookup(m, key))
    decreases |ds|
  {
    if ds == [] {
    } else {
      var n := |ds| - 1;
      FoldedValue(m, ds[..n], key);
      FoldSnoc(m, ds[..n], ds[n]);
      assert ds == ds[..n] + [ds[n]];
    }
  }

  /** Under a key of the input only the last delta counts, elsewhere the last write. */
  lemma {:induction false} MergedDeltaValue(input: Metadata, ds: seq<Delta>, key: string)
    ensures Lookup(MergeDeltas(input, input, ds), key) ==
            if key in input then Or(Lookup(Added(LastDelta(ds)), key), Lookup(input, key)) else LastWrite(ds, key)
    decreases |ds|
  {
    if ds == [] {
    } else {
      var n := |ds| - 1;
      MergedDeltaValue(input, ds[..n], key);
      MergeDeltasSnoc(input, input, ds[..n], ds[n]);
      assert ds == ds[..n] + [ds[n]];
    }
  }

  /** No overwrite of an input key is undone by the last hook's copy of the input. */
  ghost predicate NothingRestored(input: Metadata, ds: seq<Delta>) {
    forall key | key in input && key !in Added(LastDelta(ds)) ::
      LastWrite(ds, key).Some? ==> LastWrite(ds, key).value == input[key]
  }

  lemma {:induction false} LastDeltaWritesLast(ds: seq<Delta>, key: string)
    requires key in Added(LastDelta(ds))
    ensures LastWrite(ds, key) == Some(Added(LastDelta(ds))[key])
    decreases |ds|
  {
    if ds == [] {
    } else if !ds[|ds| - 1].Some? {
      LastDeltaWritesLast(ds[..|ds| - 1], key);
    }
  }

  lemma SameLookups(a: Metadata, b: Metadata)
    ensures a == b <==> forall key :: Lookup(a, key) == Lookup(b, key)
  {
    if forall key :: Lookup(a, key) == Lookup(b, key) {
      forall key ensures key in a <==> key in b {
        assert Lookup(a, key) == Lookup(b, key);
      }
      forall key | key in a ensures a[key] == b[key] {
        assert Lookup(a, key) == Lookup(b, key);
      }
    }
  }

  /** For hooks that write regardless of each other, the parallel run equals the sequential run exactly
      when no input key that an earlier hook overwrote with another value is left alone by the last hook
      that does not degrade. */
  lemma ParallelEqualsSequentialExactly(impls: seq<Registration>, c: Context, ws: seq<set<string>>, ds: seq<Delta>)
    requires WriteAll(impls, c, ws, ds)
    ensures RunSequential(impls, c) == Finished(RunParallel(impls, c)) <==> NothingRestored(c.metadata, ds)
  {
    var par, sq := MergeDeltas(c.metadata, c.metadata, ds), FoldDeltas(c.metadata, ds);
    assert c.(metadata := c.metadata) == c;
    SequentialFolds(impls, c, ws, ds, c.metadata);
    ParallelMerges(impls, c, ws, ds, c.metadata);
    SameLookups(par, sq);
    forall key
      ensures Lookup(par, key) == Lookup(sq, key) <==>
              !(key in c.metadata && key !in Added(LastDelta(ds)) && LastWrite(ds, key).Some? &&
                LastWrite(ds, key).value != c.metadata[key])
    {
      FoldedValue(c.metadata, ds, key);
      MergedDeltaValue(c.metadata, ds, key);
      if key in Added(LastDelta(ds)) {
        LastDeltaWritesLast(ds, key);
      }
    }
  }

  function AddingHook(delta: Metadata): Registration {
    Registration("add", Multi, map[], 100, true, false,
                 (c: Context) => Reply(Ok(c.(metadata := c.metadata + delta)), 0.0))
  }

  lemma TwoOkHooks(a: Registration, b: Registration, c: Context, c1: Context, c2: Context, c3: Context)
    requires Step(a, c) == Returned(c1, StOk) && Step(b, c1) == Returned(c2, StOk) && Step(b, c) == Returned(c3, StOk)
    ensures RunSequential([a, b], c) == Finished(c2)
    ensures MergeResults(c.metadata, [a, b], c) == c.metadata + c1.metadata + c3.metadata
  {
    var impls, last := [a, b], [b];
    assert impls[1..] == last && last[1..] == [];
    assert RunSequential(impls, c) == RunSequential(last, c1) == RunSequential([], c2);
    assert MergeResults(c.metadata, impls, c) == MergeResults(c.metadata + c1.metadata, last, c)
        == MergeResults(c.metadata + c1.metadata + c3.metadata, [], c);
  }

  /** It does not always hold: a hook that overwrites an input key, followed by one that leaves it alone. */
  lemma OverwriteCanBeRestored(c: Context)
    requires c.metadata == map["k" := Num(0)]
    ensures var impls := [AddingHook(map["k" := Num(1)]), AddingHook(map[])];
            RunSequential(impls, c) == Finished(c.(metadata := map["k" := Num(1)])) && RunParallel(impls, c) == c
  {
    var written: Metadata := map["k" := Num(1)];
    var c1 := c.(metadata := written);
    assert c.metadata + written == written && written + map[] == written;
    assert c.metadata + map[] == c.metadata && written + c.metadata == c.metadata;
    assert c.(metadata := c.metadata) == c;
    TwoOkHooks(AddingHook(written), AddingHook(map[]), c, c1, c1, c);
  }

  // ----- Independent hooks, in any order -----

  /** Fresh, pairwise disjoint key sets that no other hook reads. */
  ghost predicate Independent(impls: seq<Registration>, c: Context, ws: seq<set<string>>, ds: seq<Delta>) {
    && |impls| == |ws| == |ds|
    && (forall i | 0 <= i < |impls| :: Writes(impls[i], c, ws[i], ds[i]) && Keys(ds[i]) !! c.metadata.Keys)
    && (forall i, j | 0 <= i < |impls| && 0 <= j < |impls| && i != j ::
          Keys(ds[i]) <= ws[j] && Keys(ds[i]) !! Keys(ds[j]))
  }

  lemma {:induction false} LastWriteIs(ds: seq<Delta>, key: string, i: nat)
    requires i < |ds| && key in Keys(ds[i])
    requires forall j | 0 <= j < |ds| && j != i :: key !in Keys(ds[j])
    ensures LastWrite(ds, key) == Some(Added(ds[i])[key])
    decreases |ds|
  {
    var n := |ds| - 1;
    if i == n {
    } else {
      assert key !in Keys(ds[n]);
      LastWriteIs(ds[..n], key, i);
    }
  }

  lemma {:induction false} NeverWritten(ds: seq<Delta>, key: string)
    requires forall j | 0 <= j < |ds| :: key !in Keys(ds[j])
    ensures LastWrite(ds, key) == None
    decreases |ds|
  {
    if ds == [] {
    } else {
      assert key !in Keys(ds[|ds| - 1]);
      NeverWritten(ds[..|ds| - 1], key);
    }
  }

  lemma ArrangedIndependent(impls: seq<Registration>, c: Context, ws: seq<set<string>>, ds: seq<Delta>, p: seq<nat>)
    requires Independent(impls, c, ws, ds) && Permutation(p, |impls|)
    ensures Independent(Arrange(impls, p), c, Arrange(ws, p), Arrange(ds, p))
  {
  }

  lemma SameLastWrites(ds: seq<Delta>, p: seq<nat>, key: string)
    requires Permutation(p, |ds|)
    requires forall i, j | 0 <= i < |ds| && 0 <= j < |ds| && i != j :: Keys(ds[i]) !! Keys(ds[j])
    ensures LastWrite(Arrange(ds, p), key) == LastWrite(ds, key)
  {
    var es := Arrange(ds, p);
    if i :| 0 <= i < |ds| && key in Keys(ds[i]) {
      LastWriteIs(ds, key, i);
      assert i in p;
      var k :| 0 <= k < |p| && p[k] == i;
      assert es[k] == ds[i];
      LastWriteIs(es, key, k);
    } else {
      NeverWritten(ds, key);
      NeverWritten(es, key);
    }
  }

  lemma FreshRestoresNothing(impls: seq<Registration>, c: Context, ws: seq<set<string>>, ds: seq<Delta>)
    requires Independent(impls, c, ws, ds)
    ensures NothingRestored(c.metadata, ds)
  {
    forall key | key in c.metadata ensures LastWrite(ds, key) == None {
      forall j | 0 <= j < |ds| ensures key !in Keys(ds[j]) {
        assert Keys(ds[j]) !! c.metadata.Keys;
      }
      NeverWritten(ds, key);
    }
  }

  /** Independent hooks give the same context in parallel and in sequence, in every order of the hooks. */
  lemma IndependentHooksCommute(impls: seq<Registration>, c: Context, ws: seq<set<string>>, ds: seq<Delta>, p: seq<nat>)
    requires Independent(impls, c, ws, ds) && Permutation(p, |impls|)
    ensures RunSequential(Arrange(impls, p), c) == Finished(RunParallel(impls, c))
    ensures RunParallel(Arrange(impls, p), c) == RunParallel(impls, c)
  {
    var impls', ws', ds' := Arrange(impls, p), Arrange(ws, p), Arrange(ds, p);
    ArrangedIndependent(impls, c, ws, ds, p);
    FreshRestoresNothing(impls', c, ws', ds');
    FreshRestoresNothing(impls, c, ws, ds);
    ParallelEqualsSequentialExactly(impls', c, ws', ds');
    ParallelEqualsSequentialExactly(impls, c, ws, ds);
    assert c.(metadata := c.metadata) == c;
    SequentialFolds(impls, c, ws, ds, c.metadata);
    SequentialFolds(impls', c, ws', ds', c.metadata);
    forall key ensures Lookup(FoldDeltas(c.metadata, ds), key) == Lookup(FoldDeltas(c.metadata, ds'), key) {
      FoldedValue(c.metadata, ds, key);
      FoldedValue(c.metadata, ds', key);
      SameLastWrites(ds, p, key);
    }
    SameLookups(FoldDeltas(c.metadata, ds), FoldDeltas(c.metadata, ds'));
  }

  // ----- Arbitrary batches, in any order -----

  predicate AgreeAt(impls: seq<Registration>, c: Context, i: nat, j: nat, key: string)
    requires i < |impls| && j < |impls|
  {
    Carries(impls, c, i, key) && Carries(impls, c, j, key) ==>
      Contribution(Step(impls[i], c))[key] == Contribution(Step(impls[j], c))[key]
  }

  /** All ok results that carry a key agree on its value. */
  ghost predicate CarriersAgree(impls: seq<Registration>, c: Context) {
    forall i: nat, j: nat, key | i < |impls| && j < |impls| :: AgreeAt(impls, c, i, j, key)
  }

  lemma {:induction false} SomeLastCarrier(impls: seq<Registration>, c: Context, i: nat,
                                           key: string) returns (last: nat)
    requires i < |impls| && Carries(impls, c, i, key)
    ensures LastCarrier(impls, c, last, key)
    decreases |impls| - i
  {
    if j: nat :| i < j < |impls| && Carries(impls, c, j, key) {
      last := SomeLastCarrier(impls, c, j, key);
    } else {
      last := i;
    }
  }

  /** With agreeing carriers, any of them gives the merged value. */
  lemma AnyCarrierDecides(impls: seq<Registration>, c: Context, i: nat, key: string)
    requires CarriersAgree(impls, c) && i < |impls| && Carries(impls, c, i, key)
    ensures Lookup(RunParallel(impls, c).metadata, key) == Some(Contribution(Step(impls[i], c))[key])
  {
    var last := SomeLastCarrier(impls, c, i, key);
    MergedValue(c.metadata, impls, c, key);
    assert AgreeAt(impls, c, i, last, key);
  }

  lemma NoCarrierKeeps(impls: seq<Registration>, c: Context, key: string)
    requires forall i: nat | i < |impls| :: !Carries(impls, c, i, key)
    ensures Lookup(RunParallel(impls, c).metadata, key) == Lookup(c.metadata, key)
  {
    MergedValue(c.metadata, impls, c, key);
  }

  lemma ArrangedAgree(impls: seq<Registration>, c: Context, p: seq<nat>)
    requires CarriersAgree(impls, c) && Permutation(p, |impls|)
    ensures CarriersAgree(Arrange(impls, p), c)
  {
    var es := Arrange(impls, p);
    forall i: nat, j: nat, key | i < |es| && j < |es| ensures AgreeAt(es, c, i, j, key) {
      assert AgreeAt(impls, c, p[i], p[j], key);
    }
  }

  lemma AgreeingCommute(impls: seq<Registration>, c: Context, p: seq<nat>)
    requires CarriersAgree(impls, c) && Permutation(p, |impls|)
    ensures RunParallel(Arrange(impls, p), c) == RunParallel(impls, c)
  {
    var es := Arrange(impls, p);
    ArrangedAgree(impls, c, p);
    forall key ensures Lookup(RunParallel(es, c).metadata, key) == Lookup(RunParallel(impls, c).metadata, key) {
      if i: nat :| i < |impls| && Carries(impls, c, i, key) {
        assert i in p;
        var k :| 0 <= k < |p| && p[k] == i;
        assert es[k] == impls[i];
        AnyCarrierDecides(impls, c, i, key);
        AnyCarrierDecides(es, c, k, key);
      } else {
        NoCarrierKeeps(impls, c, key);
        forall k: nat | k < |es| ensures !Carries(es, c, k, key) {
          assert !Carries(impls, c, p[k], key);
        }
        NoCarrierKeeps(es, c, key);
      }
    }
    SameLookups(RunParallel(es, c).metadata, RunParallel(impls, c).metadata);
  }

  /** In the order that puts hook i last, hook i decides every key that it carries. */
  lemma LastOneDecides(impls: seq<Registration>, c: Context, i: nat, key: string)
    requires i < |impls| && Carries(impls, c, i, key)
    ensures Permutation(MoveLast(|impls|, i), |impls|)
    ensures Lookup(RunParallel(Arrange(impls, MoveLast(|impls|, i)), c).metadata, key) ==
            Some(Contribution(Step(impls[i], c))[key])
  {
    MoveLastPermutes(|impls|, i);
    var es := Arrange(impls, MoveLast(|impls|, i));
    assert es[|es| - 1] == impls[i];
    assert LastCarrier(es, c, |es| - 1, key);
    MergedValue(c.metadata, es, c, key);
  }

  ghost predicate OrderIrrelevant(impls: seq<Registration>, c: Context) {
    forall p | Permutation(p, |impls|) :: RunParallel(Arrange(impls, p), c) == RunParallel(impls, c)
  }

  /** The list order of an arbitrary batch is irrelevant to its merged context exactly when all ok results
      that carry a key agree on its value. */
  lemma OrderIrrelevantExactly(impls: seq<Registration>, c: Context)
    ensures OrderIrrelevant(impls, c) <==> CarriersAgree(impls, c)
  {
    if CarriersAgree(impls, c) {
      forall p | Permutation(p, |impls|) ensures RunParallel(Arrange(impls, p), c) == RunParallel(impls, c) {
        AgreeingCommute(impls, c, p);
      }
    }
    if OrderIrrelevant(impls, c) {
      forall i: nat, j: nat, key | i < |impls| && j < |impls| ensures AgreeAt(impls, c, i, j, key) {
        if Carries(impls, c, i, key) && Carries(impls, c, j, key) {
          LastOneDecides(impls, c, i, key);
          LastOneDecides(impls, c, j, key);
        }
      }
    }
  }
}
