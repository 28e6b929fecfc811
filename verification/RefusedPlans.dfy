/** Redeploys that the app goes along with and the engine refuses: the inputs, and what they have in common. */
module RefusedPlans {
  import opened Wrappers
  import opened Sequences
  import opened Text
  import opened Ipv4
  import opened NetPolicy
  import opened EngineNetworks
  import opened NetworkCatalog
  import opened Allocations
  import opened IpPolicyCheck
  import opened AllocatedPlans

  function OneStatic(n: string, vm: string): Group {
    Group(n, "static", [], [vm])
  }

  function PlanFor(g: Group, vm: string, table: seq<Held>, env: nat): Hosts {
    map[vm := HostOf(g, vm, table, env)]
  }

  /** The engine refuses the plan of this one VM, for which the app's calls change nothing. */
  ghost predicate RefusedRedeploy(c: Catalog, slices: Slices, env: nat, table: seq<Held>, n: string, vm: string) {
    var g := OneStatic(n, vm);
    && Ready(c, slices, "", [g]) && slices.Keys <= c.Keys && Load(HostCatalog(c, slices), "").Some?
    && Deployed(c, slices, env, table, [g]) == Some(table)
    && var (nets, hosts) := (Load(HostCatalog(c, slices), "").value, PlanFor(g, vm, table, env));
       && !Unreadable(nets, hosts[vm])
       && Report(nets, hosts, [vm], {vm}) != []
  }

  lemma RowIsKept(rows: seq<Row>, candidates: seq<Addr>, env: nat, vm: string)
    requires exists r :: r in rows && r.env == env && r.vm == vm
    ensures Allocated(rows, candidates, env, [vm]).0 == rows && Allocated(rows, candidates, env, [vm]).1.Given?
  {
    hide Free, Mine, AddressesFor;
    var mine := Mine(rows, env);
    MineAre(rows, env);
    assert [vm][..0] == [] && Needing([vm], mine) == [];
    var free := Free(candidates, AddressList(rows));
    assert NewRows(env, [], free) == [] && free[..0] == [];
    WithNothing(rows);
  }

  lemma KeptTable(c: Catalog, slices: Slices, env: nat, table: seq<Held>, n: string, vm: string)
    requires HasRowOn(table, env, vm, n)
    ensures Deployed(c, slices, env, table, [OneStatic(n, vm)]) == Some(table)
  {
    hide CandidatesOn, On, Allocated;
    var g := OneStatic(n, vm);
    OnMembers(table, n);
    var h :| h in table && h.network == n && h.row.env == env && h.row.vm == vm;
    assert h.row in On(table, n);
    RowIsKept(On(table, n), CandidatesOn(c, slices, n), env, vm);
    assert On(table, n)[|On(table, n)|..] == [] && HeldOn(n, []) == [];
    WithNothing(table);
    assert [g][..0] == [] && Deployed(c, slices, env, table, []) == Some(table);
  }

  /** A VM that has a row on its group's network, and for which an address that network doesn't hand out is
      found, is redeployed in vain. */
  lemma OldRowIsRefused(c: Catalog, slices: Slices, env: nat, table: seq<Held>, n: string, vm: string)
    requires Ready(c, slices, "", [OneStatic(n, vm)]) && HasRowOn(table, env, vm, n)
    requires !ReadsCandidate(c, slices, table, env, vm, n)
    ensures RefusedRedeploy(c, slices, env, table, n, vm)
  {
    hide Ready, Load, Report, HasRowOn, ReadsCandidate, Deployed, Unreadable;
    var g := OneStatic(n, vm);
    var hosts := PlanFor(g, vm, table, env);
    KeptTable(c, slices, env, table, n, vm);
    assert g in [g] && vm in g.vms;
    assert PlanOf([g], table, env, hosts, [vm]);
    DeployedPlanPasses(c, slices, "", env, table, [g], hosts, [vm]);
    assert Elements([vm]) == {vm};
    assert vm in [vm] && IsStatic(hosts, vm) && hosts[vm].network == n;
  }

  // --- a small catalog ----------------------------------------------------------------------

  type Base = x: Addr | x % 256 == 0 witness 0

  /** 256 addresses from base on, of which the app may hand out one. */
  function SmallNet(base: Base): Fields {
    Fields(Some(Cidr(base, 24)), "", [], ["static"], [ShowAddr(base + 5)], [], [])
  }

  lemma SmallBlock(base: Base)
    ensures Cidr(base, 24).Network() == base && Cidr(base, 24).Broadcast() == base + 255
  {
    assert Pow2(8) == 256;
  }

  lemma OneAddressRange(a: Addr)
    ensures ParseRange(ShowAddr(a)) == Some(Range(a, a)) && !TrailingDash(ShowAddr(a))
  {
    hide ShowAddr, ParseAddr, Strip, Find;
    var s := ShowAddr(a);
    ShowAddrChars(a);
    ParseShow(a);
    assert Find(s, '-', 0) == None;
  }

  lemma SmallRanges(base: Base)
    ensures Ranges(SmallNet(base).staticPools) == Some([Range(base + 5, base + 5)]) && Ranges([]) == Some([])
    ensures NoTrailingDash(SmallNet(base), []) && SliceAllowed([], SmallNet(base))
  {
    hide ShowAddr, ParseRange, TrailingDash;
    OneAddressRange(base + 5);
    var texts := [ShowAddr(base + 5)];
    assert texts[1..] == [] && Ranges([]) == Some([]);
    assert Ranges(texts).value == [Range(base + 5, base + 5)];
    assert !SomeTrailingDash(texts) && !SomeTrailingDash([]);
  }

  lemma SmallNetValid(base: Base, name: string)
    ensures Validate(SmallNet(base), name, []) == None
  {
    hide ShowAddr, ParseRange, Ranges, ParseAddr;
    SmallBlock(base);
    SmallRanges(base);
    assert GatewayOf("", Cidr(base, 24)) == Some(base + 1);
  }

  lemma SmallNetHandsOut(base: Base, c: Catalog, slices: Slices, n: string, a: Addr)
    requires n in c && n in slices && c[n] == SmallNet(base) && slices[n] == []
    ensures a in CandidatesOn(c, slices, n) <==> a == base + 5
  {
    hide ShowAddr, ParseRange, Ranges, ParseAddr, Candidates;
    SmallBlock(base);
    SmallRanges(base);
    assert GatewayOf("", Cidr(base, 24)) == Some(base + 1);
    var r := RulesOf(c[n], []).value;
    CandidatesAre(r, a);
    assert r.pools[0] == Range(base + 5, base + 5);
  }

  const ONE: Base := 0x0A00_0000   // 10.0.0.0
  const TWO: Base := 0x0A00_0100   // 10.0.1.0

  function TwoNets(): Catalog {
    map["one" := SmallNet(ONE), "two" := SmallNet(TWO)]
  }

  function NoSlices(): Slices {
    map["one" := [], "two" := []]
  }

  lemma TwoNetsReady(vm: string)
    ensures Ready(TwoNets(), NoSlices(), "", [OneStatic("one", vm)])
  {
    hide Consistent, Attached, NoTrailingDash, SmallNet, Resolves;
    TwoNetsConsistent();
    TwoNetsAttached();
    OneResolves(vm);
    NoDashes();
    assert "one" in NoSlices();
  }

  lemma NoDashes()
    ensures forall n :: n in NoSlices() ==> n in TwoNets() && NoTrailingDash(TwoNets()[n], NoSlices()[n])
  {
    hide SmallNet, NoTrailingDash;
    var (c, slices) := (TwoNets(), NoSlices());
    SmallRanges(ONE);
    SmallRanges(TWO);
    forall n | n in slices ensures n in c && NoTrailingDash(c[n], slices[n]) {
      assert n == "one" || n == "two";
    }
  }

  lemma OneResolves(vm: string)
    ensures Resolves(TwoNets(), NoSlices(), OneStatic("one", vm))
  {
    hide SmallNet;
    SmallNetMode(ONE);
  }

  lemma TwoNetsConsistent()
    ensures Consistent(TwoNets())
  {
    hide Validate, SmallNet, Apart;
    SmallNetValid(ONE, "one");
    SmallNetValid(TWO, "two");
    TwoNetsApart();
  }

  lemma TwoNetsAttached()
    ensures Attached(TwoNets(), NoSlices())
  {
    hide SmallNet, SliceAllowed;
    var (c, slices) := (TwoNets(), NoSlices());
    SmallRanges(ONE);
    SmallRanges(TWO);
    forall n | n in slices ensures n in c && SliceAllowed(slices[n], c[n]) {
      assert n == "one" || n == "two";
    }
  }

  lemma TwoNetsApart()
    ensures Apart(SmallNet(ONE), SmallNet(TWO)) && Apart(SmallNet(TWO), SmallNet(ONE))
  {
    hide ShowAddr;
    SmallBlock(ONE);
    SmallBlock(TWO);
  }

  lemma SmallNetMode(base: Base)
    ensures "static" in SmallNet(base).addressing
  {
  }

  // --- the inputs ---------------------------------------------------------------------------

  /** The VM's address, 10.0.0.9, was handed out before the pool was narrowed to 10.0.0.5: the app keeps it, and
      it is read back from its own network. */
  lemma NarrowedPoolIsRefused()
    ensures var table := [Held("one", Row(ONE + 9, 7, "v"))];
            ReadsOwn(table, 7, "v", "one") && RefusedRedeploy(TwoNets(), NoSlices(), 7, table, "one", "v")
  {
    hide Ready, CandidatesOn, RefusedRedeploy, SmallNet;
    var table := [Held("one", Row(ONE + 9, 7, "v"))];
    TwoNetsReady("v");
    SmallNetHandsOut(ONE, TwoNets(), NoSlices(), "one", ONE + 9);
    assert table[0] in table && LookUp(table, 7, "v") == Some(table[0]);
    OldRowIsRefused(TwoNets(), NoSlices(), 7, table, "one", "v");
  }

  /** The VM has 10.0.0.5 on its group's network, and 10.0.1.5 on another from later: the app answers the first,
      and the plan carries the second. */
  lemma SecondNetworkIsRefused()
    ensures var table := [Held("one", Row(ONE + 5, 7, "v")), Held("two", Row(TWO + 5, 7, "v"))];
            && AllocatedOn(table, "one", CandidatesOn(TwoNets(), NoSlices(), "one"), 7, ["v"])
               == (table, Given([ONE + 5]))
            && LookUp(table, 7, "v") == Some(Held("two", Row(TWO + 5, 7, "v")))
            && RefusedRedeploy(TwoNets(), NoSlices(), 7, table, "one", "v")
  {
    hide Ready, CandidatesOn, RefusedRedeploy, SmallNet, AllocatedOn;
    var table := [Held("one", Row(ONE + 5, 7, "v")), Held("two", Row(TWO + 5, 7, "v"))];
    TwoNetsReady("v");
    SmallNetHandsOut(ONE, TwoNets(), NoSlices(), "one", TWO + 5);
    FirstIsAnswered(7, "v", ONE + 5, TWO + 5, CandidatesOn(TwoNets(), NoSlices(), "one"));
    assert table[0] in table && LookUp(table, 7, "v") == Some(table[1]);
    OldRowIsRefused(TwoNets(), NoSlices(), 7, table, "one", "v");
  }

  lemma FirstIsAnswered(env: nat, vm: string, a: Addr, b: Addr, candidates: seq<Addr>)
    ensures var table := [Held("one", Row(a, env, vm)), Held("two", Row(b, env, vm))];
            AllocatedOn(table, "one", candidates, env, [vm]) == (table, Given([a]))
  {
    var (h, k) := (Held("one", Row(a, env, vm)), Held("two", Row(b, env, vm)));
    assert [h, k][..1] == [h] && [h][..0] == [];
    assert On([], "one") == [] && On([h], "one") == [h.row] && On([h, k], "one") == [h.row];
    assert Mine([h.row], env) == map[vm := a] by { assert [h.row][..0] == []; }
    assert [vm][..0] == [] && Needing([vm], map[vm := a]) == [];
    var free := Free(candidates, AddressList([h.row]));
    assert AddressesFor([vm], map[vm := a], free) == [a] && NewRows(env, [], free) == [] && free[..0] == [];
    assert [h.row] + [] == [h.row] && [h.row][1..] == [] && HeldOn("one", []) == [];
    assert Allocated([h.row], candidates, env, [vm]) == ([h.row], Given([a]));
    assert [h, k] + [] == [h, k];
  }
}
