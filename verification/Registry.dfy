/** Registration, filtering and dispatch order (core/registry.py and `_get_impls`). */
module Registries {
  import opened Prelude
  import opened Contexts
  import opened Hooks
  import opened Sorting
  import C = Contracts

  // ----- Registration -----

  /** `_impls` and `_modes`. */
  datatype Table = Table(impls: map<string, seq<Registration>>, modes: map<string, Mode>) {
    function At(hook: string): seq<Registration> {
      if hook in impls then impls[hook] else []
    }
  }

  /** The arguments of one `implement(...)(fn)` call; the contract strings are checked and dropped. */
  datatype Request = Request(hook: string, reg: Registration, required: Option<string>, got: Option<string>)

  datatype Answer = Accepted | Conflict | ContractError | ValueError

  function Implement(t: Table, r: Request): (Table, Answer) {
    var verdict := C.CheckCompatibility(r.required, r.got);
    if verdict == C.Malformed then (t, ValueError)
    else if verdict == C.Incompatible then (t, ContractError)
    else if r.hook in t.modes && t.modes[r.hook] == Single && t.At(r.hook) != [] then (t, Conflict)
    else if r.reg.mode == Single && t.At(r.hook) != [] then (t, Conflict)
    else (Table(t.impls[r.hook := t.At(r.hook) + [r.reg]], t.modes[r.hook := r.reg.mode]), Accepted)
  }

  function ImplementAll(t: Table, rs: seq<Request>): Table
    decreases |rs|
  {
    if rs == [] then t else ImplementAll(Implement(t, rs[0]).0, rs[1..])
  }

  ghost predicate HasSingle(regs: seq<Registration>) {
    exists i :: 0 <= i < |regs| && regs[i].mode == Single
  }

  /** A single-mode registration is alone, and the recorded mode is that of the latest registration. */
  ghost predicate ModeInvAt(t: Table, hook: string) {
    && (HasSingle(t.At(hook)) ==> |t.At(hook)| == 1)
    && (t.At(hook) != [] ==> hook in t.modes && t.modes[hook] == t.At(hook)[|t.At(hook)| - 1].mode)
  }

  ghost predicate ModeInv(t: Table) {
    forall hook :: ModeInvAt(t, hook)
  }

  lemma ImplementKeepsModes(t: Table, r: Request)
    requires ModeInv(t)
    ensures ModeInv(Implement(t, r).0)
  {
    var t' := Implement(t, r).0;
    forall hook ensures ModeInvAt(t', hook) {
      assert ModeInvAt(t, hook);
      if hook == r.hook && t' != t {
        var regs := t.At(hook);
        assert t'.At(hook) == regs + [r.reg];
        if regs != [] {
          assert regs[|regs| - 1].mode == Multi;
          assert !HasSingle(regs);
        }
      } else {
        assert t'.At(hook) == t.At(hook);
      }
    }
  }

  /** Over every sequence of accepted and rejected registrations. */
  lemma {:induction false} RegistriesKeepModes(t: Table, rs: seq<Request>)
    requires ModeInv(t)
    ensures ModeInv(ImplementAll(t, rs))
    decreases |rs|
  {
    if rs == [] {
    } else {
      ImplementKeepsModes(t, rs[0]);
      RegistriesKeepModes(Implement(t, rs[0]).0, rs[1..]);
    }
  }

  /** Registrations take effect one after the other, each on the table the earlier ones left. */
  lemma {:induction false} RegistrationsCompose(t: Table, rs: seq<Request>, r: Request)
    ensures ImplementAll(t, rs + [r]) == Implement(ImplementAll(t, rs), r).0
    ensures ImplementAll(t, []) == t
    decreases |rs|
  {
    if rs == [] {
      assert (rs + [r])[1..] == [];
    } else {
      assert (rs + [r])[0] == rs[0] && (rs + [r])[1..] == rs[1..] + [r];
      RegistrationsCompose(Implement(t, rs[0]).0, rs[1..], r);
    }
  }

  /** Exactly when a registration is accepted; a rejected one leaves the table as it was, and an accepted
      one is appended at its own hookpoint only. */
  lemma AcceptedExactly(t: Table, r: Request)
    requires ModeInv(t)
    ensures Implement(t, r).1 == Accepted <==>
            C.CheckCompatibility(r.required, r.got) == C.Compatible &&
            (t.At(r.hook) == [] || (r.reg.mode == Multi && !HasSingle(t.At(r.hook))))
    ensures Implement(t, r).1 != Accepted ==> Implement(t, r).0 == t
    ensures Implement(t, r).1 == Accepted ==>
              forall hook :: Implement(t, r).0.At(hook) == t.At(hook) + (if hook == r.hook then [r.reg] else [])
  {
    assert ModeInvAt(t, r.hook);
    var regs := t.At(r.hook);
    if regs != [] && regs[|regs| - 1].mode == Single {
      assert HasSingle(regs);
    }
  }

  /** A malformed contract or range is a ValueError and an unmet one a contract error, before anything else;
      the rest that is rejected is a conflict. */
  lemma AnswersExactly(t: Table, r: Request)
    ensures Implement(t, r).1 == ValueError <==> C.CheckCompatibility(r.required, r.got) == C.Malformed
    ensures Implement(t, r).1 == ContractError <==> C.CheckCompatibility(r.required, r.got) == C.Incompatible
    ensures r.required.None? ==> Implement(t, r).1 == Accepted || Implement(t, r).1 == Conflict
  {
  }

  // ----- Selection -----

  /** What a filter condition is compared with; a missing metadata key reads as None. */
  function Actual(key: string, c: Context): Value {
    if key == "tenant" then c.Attr("tenant_id")
    else if key == "tool_name" then c.Attr("tool_name")
    else if key in c.metadata then c.metadata[key]
    else Null
  }

  predicate MatchesFilter(filter: map<string, Value>, c: Context) {
    forall key | key in filter :: Actual(key, c) == filter[key]
  }

  function Matching(regs: seq<Registration>, c: Context): seq<Registration> {
    if regs == [] then []
    else (if MatchesFilter(regs[0].filter, c) then [regs[0]] else []) + Matching(regs[1..], c)
  }

  /** `HookRegistry.get_impls`. */
  function Select(regs: seq<Registration>, c: Context): seq<Registration> {
    SortBy(Matching(regs, c), OrderKey)
  }

  function MatchEach(tables: seq<seq<Registration>>, c: Context): seq<seq<Registration>> {
    if tables == [] then [] else [Matching(tables[0], c)] + MatchEach(tables[1..], c)
  }

  function SelectEach(tables: seq<seq<Registration>>, c: Context): seq<seq<Registration>> {
    if tables == [] then [] else [Select(tables[0], c)] + SelectEach(tables[1..], c)
  }

  /** `HookPointDescriptor._get_impls` over what each attached registry holds for the hookpoint. */
  function Dispatch(tables: seq<seq<Registration>>, c: Context): seq<Registration> {
    SortBy(Flatten(SelectEach(tables, c)), OrderKey)
  }

  lemma {:induction false} SelectIsSortEach(tables: seq<seq<Registration>>, c: Context)
    ensures SelectEach(tables, c) == SortEach(MatchEach(tables, c), OrderKey)
  {
    if tables == [] {
    } else {
      SelectIsSortEach(tables[1..], c);
      assert MatchEach(tables, c)[1..] == MatchEach(tables[1..], c);
    }
  }

  lemma {:induction false} MatchingAppend(a: seq<Registration>, b: seq<Registration>, c: Context)
    ensures Matching(a + b, c) == Matching(a, c) + Matching(b, c)
  {
    if a == [] {
      assert a + b == b;
    } else {
      var head := if MatchesFilter(a[0].filter, c) then [a[0]] else [];
      assert (a + b)[0] == a[0] && (a + b)[1..] == a[1..] + b;
      calc {
        Matching(a + b, c);
        head + Matching(a[1..] + b, c);
        { MatchingAppend(a[1..], b, c); }
        head + (Matching(a[1..], c) + Matching(b, c));
        (head + Matching(a[1..], c)) + Matching(b, c);
      }
    }
  }

  lemma {:induction false} MatchingFlatten(tables: seq<seq<Registration>>, c: Context)
    ensures Flatten(MatchEach(tables, c)) == Matching(Flatten(tables), c)
  {
    if tables == [] {
    } else {
      MatchingFlatten(tables[1..], c);
      MatchingAppend(tables[0], Flatten(tables[1..]), c);
      assert MatchEach(tables, c)[1..] == MatchEach(tables[1..], c);
    }
  }

  lemma DispatchSortsMatching(tables: seq<seq<Registration>>, c: Context)
    ensures Dispatch(tables, c) == SortBy(Matching(Flatten(tables), c), OrderKey)
  {
    SelectIsSortEach(tables, c);
    MatchingFlatten(tables, c);
    SortEachThenSort(MatchEach(tables, c), OrderKey);
  }

  lemma DispatchIsArrangement(tables: seq<seq<Registration>>, c: Context)
    ensures StableArrangement(Matching(Flatten(tables), c), Dispatch(tables, c), OrderKey)
    ensures forall impls ::
              StableArrangement(Matching(Flatten(tables), c), impls, OrderKey) ==> impls == Dispatch(tables, c)
  {
    DispatchSortsMatching(tables, c);
    var all := Matching(Flatten(tables), c);
    StableArrangementIsUnique(all, Dispatch(tables, c), OrderKey);
    forall impls | StableArrangement(all, impls, OrderKey) ensures impls == Dispatch(tables, c) {
      StableArrangementIsUnique(all, impls, OrderKey);
    }
  }

  /** The registrations of one order, in their order. */
  function WithOrder(regs: seq<Registration>, order: int): seq<Registration> {
    if regs == [] then []
    else (if regs[0].order == order then [regs[0]] else []) + WithOrder(regs[1..], order)
  }

  ghost predicate Ascending(regs: seq<Registration>) {
    forall i, j | 0 <= i < j < |regs| :: regs[i].order <= regs[j].order
  }

  lemma {:induction false} LevelIsWithOrder(regs: seq<Registration>, v: real)
    ensures Level(regs, OrderKey, v) ==
            if v == v.Floor as real then WithOrder(regs, v.Floor) else []
  {
    if regs == [] {
    } else {
      LevelIsWithOrder(regs[1..], v);
      assert OrderKey(regs[0]) == v <==> v == v.Floor as real && regs[0].order == v.Floor;
    }
  }

  ghost predicate SameOrders(a: seq<Registration>, b: seq<Registration>) {
    forall order :: WithOrder(a, order) == WithOrder(b, order)
  }

  lemma SameLevelsSameOrders(a: seq<Registration>, b: seq<Registration>)
    requires SameLevels(a, b, OrderKey)
    ensures SameOrders(a, b)
  {
    forall order: int ensures WithOrder(a, order) == WithOrder(b, order) {
      LevelIsWithOrder(a, order as real);
      LevelIsWithOrder(b, order as real);
      assert Level(a, OrderKey, order as real) == Level(b, OrderKey, order as real);
    }
  }

  lemma SameOrdersSameLevels(a: seq<Registration>, b: seq<Registration>)
    requires SameOrders(a, b)
    ensures SameLevels(a, b, OrderKey)
  {
    forall v: real ensures Level(a, OrderKey, v) == Level(b, OrderKey, v) {
      LevelIsWithOrder(a, v);
      LevelIsWithOrder(b, v);
      assert WithOrder(a, v.Floor) == WithOrder(b, v.Floor);
    }
  }

  lemma SortedIsAscending(regs: seq<Registration>)
    ensures Sorted(regs, OrderKey) <==> Ascending(regs)
  {
    if Sorted(regs, OrderKey) {
      forall i, j | 0 <= i < j < |regs| ensures regs[i].order <= regs[j].order {
        assert OrderKey(regs[i]) <= OrderKey(regs[j]);
      }
    }
  }

  /** Sorting inside each registry and again over all gives the one arrangement of the matching
      registrations that is ascending in the field `order` and keeps, within one order, first the position in
      which the registries were attached and then the registration order. */
  lemma DispatchIsStable(tables: seq<seq<Registration>>, c: Context, impls: seq<Registration>)
    ensures impls == Dispatch(tables, c) <==>
            Ascending(impls) && SameOrders(impls, Matching(Flatten(tables), c))
  {
    var all := Matching(Flatten(tables), c);
    DispatchIsArrangement(tables, c);
    SortedIsAscending(impls);
    if impls == Dispatch(tables, c) {
      SameLevelsSameOrders(all, impls);
    }
    if Ascending(impls) && SameOrders(impls, all) {
      SameOrdersSameLevels(all, impls);
      assert StableArrangement(all, impls, OrderKey);
    }
  }

  /** The executor's own sort finds nothing to do, so both sequential paths run the same list. */
  lemma ExecutorSortIsNoOp(tables: seq<seq<Registration>>, c: Context)
    ensures SortBy(Dispatch(tables, c), OrderKey) == Dispatch(tables, c)
  {
    SortIdempotent(Flatten(SelectEach(tables, c)), OrderKey);
  }

  lemma {:induction false} MatchingMembers(regs: seq<Registration>, c: Context, r: Registration)
    ensures r in Matching(regs, c) <==> r in regs && MatchesFilter(r.filter, c)
  {
    if regs == [] {
    } else {
      MatchingMembers(regs[1..], c, r);
    }
  }

  /** A filter asks for the tenant, for the tool, and for anything else in the metadata, where a missing key
      reads as None. */
  ghost predicate Meets(filter: map<string, Value>, c: Context) {
    && ("tenant" in filter ==> c.Attr("tenant_id") == filter["tenant"])
    && ("tool_name" in filter ==> c.Attr("tool_name") == filter["tool_name"])
    && forall key | key in filter && key != "tenant" && key != "tool_name" ::
         if key in c.metadata then c.metadata[key] == filter[key] else filter[key] == Null
  }

  lemma MatchesMeets(filter: map<string, Value>, c: Context)
    ensures MatchesFilter(filter, c) <==> Meets(filter, c)
  {
    if MatchesFilter(filter, c) {
      assert "tenant" in filter ==> Actual("tenant", c) == filter["tenant"];
      assert "tool_name" in filter ==> Actual("tool_name", c) == filter["tool_name"];
      forall key | key in filter && key != "tenant" && key != "tool_name"
        ensures if key in c.metadata then c.metadata[key] == filter[key] else filter[key] == Null
      {
        assert Actual(key, c) == filter[key];
      }
    }
  }

  /** Exactly the registrations whose filter is met are dispatched. */
  lemma DispatchedMatch(tables: seq<seq<Registration>>, c: Context, r: Registration)
    ensures r in Dispatch(tables, c) <==> r in Flatten(tables) && Meets(r.filter, c)
  {
    MatchesMeets(r.filter, c);
    DispatchSortsMatching(tables, c);
    SortKeepsElements(Matching(Flatten(tables), c), OrderKey);
    assert r in Dispatch(tables, c) <==> r in multiset(Dispatch(tables, c));
    assert r in Matching(Flatten(tables), c) <==> r in multiset(Matching(Flatten(tables), c));
    MatchingMembers(Flatten(tables), c, r);
  }

  // ----- Tenants do not interfere -----

  predicate ForTenantOf(r: Registration, c: Context) {
    "tenant" in r.filter ==> r.filter["tenant"] == c.Attr("tenant_id")
  }

  /** Without the registrations made for other tenants. */
  function OnlyTenant(regs: seq<Registration>, c: Context): seq<Registration> {
    if regs == [] then []
    else (if ForTenantOf(regs[0], c) then [regs[0]] else []) + OnlyTenant(regs[1..], c)
  }

  lemma {:induction false} OnlyTenantMatches(regs: seq<Registration>, c: Context)
    ensures Matching(OnlyTenant(regs, c), c) == Matching(regs, c)
  {
    if regs == [] {
    } else {
      var kept := OnlyTenant(regs[1..], c);
      OnlyTenantMatches(regs[1..], c);
      if ForTenantOf(regs[0], c) {
        assert OnlyTenant(regs, c) == [regs[0]] + kept;
        assert OnlyTenant(regs, c)[1..] == kept;
      } else {
        assert OnlyTenant(regs, c) == kept;
        assert Actual("tenant", c) != regs[0].filter["tenant"];
      }
    }
  }

  /** What other tenants register, in whatever registries, changes nothing for a context: two systems that
      agree once foreign registrations are deleted select the same hooks in the same order, make the same
      choice between sequential and parallel, and come out alike. */
  lemma TenantsDoNotInterfere(parallel: bool, t1: seq<seq<Registration>>, t2: seq<seq<Registration>>, c: Context)
    requires OnlyTenant(Flatten(t1), c) == OnlyTenant(Flatten(t2), c)
    ensures Dispatch(t1, c) == Dispatch(t2, c)
    ensures RunHookpoint(parallel, Dispatch(t1, c), c) == RunHookpoint(parallel, Dispatch(t2, c), c)
  {
    DispatchSortsMatching(t1, c);
    DispatchSortsMatching(t2, c);
    OnlyTenantMatches(Flatten(t1), c);
    OnlyTenantMatches(Flatten(t2), c);
  }

  lemma {:induction false} OnlyTenantTwice(regs: seq<Registration>, c: Context)
    ensures OnlyTenant(OnlyTenant(regs, c), c) == OnlyTenant(regs, c)
  {
    if regs == [] {
    } else {
      var kept := OnlyTenant(regs[1..], c);
      OnlyTenantTwice(regs[1..], c);
      assert ([regs[0]] + kept)[1..] == kept;
      assert [] + kept == kept;
    }
  }

  /** Every attached registry without what was registered for other tenants. */
  function OnlyTenantEach(tables: seq<seq<Registration>>, c: Context): seq<seq<Registration>> {
    if tables == [] then [] else [OnlyTenant(tables[0], c)] + OnlyTenantEach(tables[1..], c)
  }

  lemma {:induction false} OnlyTenantAppend(a: seq<Registration>, b: seq<Registration>, c: Context)
    ensures OnlyTenant(a + b, c) == OnlyTenant(a, c) + OnlyTenant(b, c)
  {
    if a == [] {
      assert a + b == b;
    } else {
      var head := if ForTenantOf(a[0], c) then [a[0]] else [];
      assert (a + b)[0] == a[0] && (a + b)[1..] == a[1..] + b;
      calc {
        OnlyTenant(a + b, c);
        head + OnlyTenant(a[1..] + b, c);
        { OnlyTenantAppend(a[1..], b, c); }
        head + (OnlyTenant(a[1..], c) + OnlyTenant(b, c));
        (head + OnlyTenant(a[1..], c)) + OnlyTenant(b, c);
      }
    }
  }

  lemma {:induction false} OnlyTenantFlatten(tables: seq<seq<Registration>>, c: Context)
    ensures Flatten(OnlyTenantEach(tables, c)) == OnlyTenant(Flatten(tables), c)
  {
    if tables == [] {
    } else {
      OnlyTenantFlatten(tables[1..], c);
      OnlyTenantAppend(tables[0], Flatten(tables[1..]), c);
      assert OnlyTenantEach(tables, c)[1..] == OnlyTenantEach(tables[1..], c);
    }
  }

  /** In particular, deleting from every registry what was registered for other tenants changes nothing. */
  lemma DeletingForeignChangesNothing(parallel: bool, tables: seq<seq<Registration>>, c: Context)
    ensures var own := OnlyTenantEach(tables, c);
            && Dispatch(own, c) == Dispatch(tables, c)
            && RunHookpoint(parallel, Dispatch(own, c), c) == RunHookpoint(parallel, Dispatch(tables, c), c)
  {
    OnlyTenantFlatten(tables, c);
    OnlyTenantTwice(Flatten(tables), c);
    TenantsDoNotInterfere(parallel, OnlyTenantEach(tables, c), tables, c);
  }

  // ----- The registry object -----

  class HookRegistry {
    var impls: map<string, seq<Registration>>
    var modes: map<string, Mode>

    function Contents(): Table
      reads this
    {
      Table(impls, modes)
    }

    ghost predicate Valid()
      reads this
    {
      ModeInv(Contents())
    }

    constructor ()
      ensures Valid() && Contents() == Table(map[], map[])
    {
      impls, modes := map[], map[];
    }

    method Register(r: Request) returns (answer: Answer)
      requires Valid()
      modifies this
      ensures Valid()
      ensures (Contents(), answer) == Implement(old(Contents()), r)
      ensures answer != Accepted ==> forall hook, c :: GetImpls(hook, c) == old(GetImpls(hook, c))
    {
      ImplementKeepsModes(Contents(), r);
      if r.required.Some? {
        var verdict := C.CheckCompatibility(r.required, r.got);
        if verdict == C.Malformed {
          return ValueError;
        }
        if verdict == C.Incompatible {
          return ContractError;
        }
      }
      var existing := Contents().At(r.hook);
      if r.hook in modes && modes[r.hook] == Single && existing != [] {
        return Conflict;
      }
      if r.reg.mode == Single && existing != [] {
        return Conflict;
      }
      modes := modes[r.hook := r.reg.mode];
      impls := impls[r.hook := existing + [r.reg]];
      answer := Accepted;
    }

    function GetImpls(hook: string, c: Context): seq<Registration>
      reads this
    {
      Select(Contents().At(hook), c)
    }
  }
}
