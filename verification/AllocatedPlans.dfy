/** From the allocation of addresses to the engine's check of the plan: a deploy's calls, what the plan reads
    back from the table, and when the engine passes it. */
module AllocatedPlans {
  import opened Wrappers
  import opened Sequences
  import opened Ipv4
  import opened NetPolicy
  import opened EngineNetworks
  import opened NetworkCatalog
  import opened Allocations
  import opened IpPolicyCheck

  /** A host group of the environment on one KVM host. */
  datatype Group = Group(network: string, mode: string, roles: seq<string>, vms: seq<string>)

  type Slices = map<string, seq<string>>

  function CandidatesOn(c: Catalog, slices: Slices, n: string): seq<Addr> {
    if n in slices && n in c && RulesOf(c[n], slices[n]).Some? then Candidates(RulesOf(c[n], slices[n]).value) else []
  }

  /** What `resolve` checks of a group: an attached network that allows its mode, static for a domain
      controller. */
  predicate Resolves(c: Catalog, slices: Slices, g: Group) {
    && g.network in slices && g.network in c && g.mode in c[g.network].addressing
    && ("domain_controller" in g.roles ==> g.mode == "static")
  }

  // --- the deploy's calls -------------------------------------------------------------------

  /** `_allocate`: a call for each static group, in order; None when one is refused, and then all of them are
      rolled back. */
  function Deployed(c: Catalog, slices: Slices, env: nat, table: seq<Held>, groups: seq<Group>): Option<seq<Held>> {
    if groups == [] then Some(table)
    else
      var (before, g) := (Deployed(c, slices, env, table, groups[..|groups| - 1]), groups[|groups| - 1]);
      if before == None || g.mode != "static" then before
      else
        var (table', r) := AllocatedOn(before.value, g.network, CandidatesOn(c, slices, g.network), env, g.vms);
        if r.Given? then Some(table') else None
  }

  // --- when a deploy gets its addresses -----------------------------------------------------

  /** The addresses of a network that nobody holds. */
  ghost function FreeOn(c: Catalog, slices: Slices, table: seq<Held>, n: string): set<Addr> {
    Elements(CandidatesOn(c, slices, n)) - Addresses(On(table, n))
  }

  /** How many addresses the groups can ask of a network. */
  function Asked(groups: seq<Group>, n: string): nat {
    if groups == [] then 0
    else
      var g := groups[|groups| - 1];
      Asked(groups[..|groups| - 1], n) + if g.mode == "static" && g.network == n then |g.vms| else 0
  }

  lemma CallTakesFew(rows: seq<Row>, candidates: seq<Addr>, env: nat, names: seq<string>)
    requires Distinct(candidates)
    ensures var free := Elements(candidates) - Addresses(rows);
            var (rows', r) := Allocated(rows, candidates, env, names);
            && (|free| >= |names| ==> r.Given?)
            && |Elements(candidates) - Addresses(rows')| >= |free| - |names|
  {
    hide Needing, Mine, Free, AddressesFor;
    RefusesExactly(rows, candidates, env, names);
    var (mine, free) := (Mine(rows, env), Free(candidates, AddressList(rows)));
    var needing := Needing(names, mine);
    NeedingFewer(names, mine);
    var rows' := Allocated(rows, candidates, env, names).0;
    if rows' != rows {
      var added := Elements(free[..|needing|]);
      DistinctCount(free[..|needing|]);
      forall a | a in Addresses(rows') ensures a in Addresses(rows) || a in added {
        var r :| r in rows' && r.address == a;
        if r !in rows {
          var i :| 0 <= i < |needing| && NewRows(env, needing, free)[i] == r;
          assert free[..|needing|][i] == a;
        }
      }
      var (before, after) := (Elements(candidates) - Addresses(rows), Elements(candidates) - Addresses(rows'));
      assert before - added <= after;
      SubsetSize(before - added, after);
      SubsetSize(before, (before - added) + added);
      assert |(before - added) + added| == |before - added| + |added|;
    }
  }

  lemma {:induction false} NeedingFewer(names: seq<string>, mine: map<string, Addr>)
    ensures |Needing(names, mine)| <= |names|
  {
    if names != [] {
      NeedingFewer(names[..|names| - 1], mine);
    }
  }

  /** A deploy gets all its addresses when each network has as many free as its static groups have VMs. */
  lemma {:induction false} EnoughFreeDeploys(c: Catalog, slices: Slices, env: nat, table: seq<Held>, groups: seq<Group>)
    requires forall n :: Distinct(CandidatesOn(c, slices, n)) && |FreeOn(c, slices, table, n)| >= Asked(groups, n)
    ensures Deployed(c, slices, env, table, groups).Some?
    ensures forall n :: |FreeOn(c, slices, Deployed(c, slices, env, table, groups).value, n)|
                        >= |FreeOn(c, slices, table, n)| - Asked(groups, n)
  {
    hide CandidatesOn, Allocated, On, Distinct, Addresses, Elements;
    if groups != [] {
      var (front, g) := (groups[..|groups| - 1], groups[|groups| - 1]);
      assert forall n :: Asked(front, n) <= Asked(groups, n);
      EnoughFreeDeploys(c, slices, env, table, front);
      var t := Deployed(c, slices, env, table, front).value;
      if g.mode == "static" {
        var cands := CandidatesOn(c, slices, g.network);
        CallTakesFew(On(t, g.network), cands, env, g.vms);
        forall n ensures On(AllocatedOn(t, g.network, cands, env, g.vms).0, n)
                         == if n == g.network then Allocated(On(t, n), cands, env, g.vms).0 else On(t, n)
        {
          AllocatedOnEach(t, g.network, cands, env, g.vms, n);
        }
      }
    }
  }

  /** And it gets none exactly when, after the groups before it, one static group's call is refused. */
  lemma {:induction false} RefusedDeploy(c: Catalog, slices: Slices, env: nat, table: seq<Held>, groups: seq<Group>)
    ensures Deployed(c, slices, env, table, groups) == None
        <==> exists k :: 0 <= k < |groups| && RefusedAt(c, slices, env, table, groups, k)
  {
    hide AllocatedOn, CandidatesOn;
    if groups != [] {
      var front := groups[..|groups| - 1];
      RefusedDeploy(c, slices, env, table, front);
      forall k | 0 <= k < |front|
        ensures RefusedAt(c, slices, env, table, groups, k) <==> RefusedAt(c, slices, env, table, front, k)
      {
        assert groups[..k] == front[..k];
      }
      assert Deployed(c, slices, env, table, front).Some? ==>
          (Deployed(c, slices, env, table, groups) == None <==> RefusedAt(c, slices, env, table, groups, |front|));
    }
  }

  predicate RefusedAt(c: Catalog, slices: Slices, env: nat, table: seq<Held>, groups: seq<Group>, k: nat)
    requires k < |groups|
  {
    var (t, g) := (Deployed(c, slices, env, table, groups[..k]), groups[k]);
    t.Some? && g.mode == "static"
    && !AllocatedOn(t.value, g.network, CandidatesOn(c, slices, g.network), env, g.vms).1.Given?
  }

  lemma {:induction false} OnMembers(table: seq<Held>, network: string)
    ensures forall r :: r in On(table, network) <==> Held(network, r) in table
  {
    if table != [] {
      var (front, h) := (table[..|table| - 1], table[|table| - 1]);
      OnMembers(front, network);
      assert table == front + [h];
    }
  }

  /** A call that gives addresses leaves each of its names with a row. */
  lemma NamesHaveRows(rows: seq<Row>, candidates: seq<Addr>, env: nat, names: seq<string>, vm: string)
    requires Allocated(rows, candidates, env, names).1.Given? && vm in names
    ensures exists r :: r in Allocated(rows, candidates, env, names).0 && r.env == env && r.vm == vm
  {
    hide Needing, Free, Mine, AddressesFor;
    var (mine, free) := (Mine(rows, env), Free(candidates, AddressList(rows)));
    MineAre(rows, env);
    NeedingAre(names, mine);
    if vm in mine {
      assert Row(mine[vm], env, vm) in rows + NewRows(env, Needing(names, mine), free);
    } else {
      var needing := Needing(names, mine);
      var k :| 0 <= k < |needing| && needing[k] == vm;
      assert NewRows(env, needing, free)[k] == Row(free[k], env, vm);
      assert Row(free[k], env, vm) in rows + NewRows(env, needing, free);
    }
  }

  /** What one group's call puts in the table. */
  ghost predicate Adds(c: Catalog, slices: Slices, env: nat, g: Group, t: seq<Held>, t': seq<Held>) {
    && t <= t'
    && (forall n :: HeldOnce(On(t, n)) ==> HeldOnce(On(t', n)))
    && (forall h :: h in t' && h !in t ==>
          h.network == g.network && h.row.env == env && h.row.vm in g.vms
          && h.row.address in CandidatesOn(c, slices, g.network))
    && forall v :: v in g.vms ==> exists h :: h in t' && h.network == g.network && h.row.env == env && h.row.vm == v
  }

  lemma CallAdds(c: Catalog, slices: Slices, env: nat, g: Group, t: seq<Held>)
    requires AllocatedOn(t, g.network, CandidatesOn(c, slices, g.network), env, g.vms).1.Given?
    requires HeldOnce(On(t, g.network))
    ensures Adds(c, slices, env, g, t, AllocatedOn(t, g.network, CandidatesOn(c, slices, g.network), env, g.vms).0)
  {
    hide Allocated, CandidatesOn, On, HeldOnce;
    var (n, cands) := (g.network, CandidatesOn(c, slices, g.network));
    var (rows, t') := (On(t, n), AllocatedOn(t, n, cands, env, g.vms).0);
    var rows' := Allocated(rows, cands, env, g.vms).0;
    AllocatedKeeps(rows, cands, env, g.vms);
    forall m ensures HeldOnce(On(t, m)) ==> HeldOnce(On(t', m)) {
      AllocatedOnEach(t, n, cands, env, g.vms, m);
    }
    forall h | h in t' && h !in t
      ensures h.network == n && h.row.env == env && h.row.vm in g.vms && h.row.address in cands
    {
      var added := rows'[|rows|..];
      assert h in HeldOn(n, added);
      var i :| 0 <= i < |added| && HeldOn(n, added)[i] == h;
      assert added[i] in added;
    }
    AllocatedOnEach(t, n, cands, env, g.vms, n);
    OnMembers(t', n);
    forall v | v in g.vms ensures exists h :: h in t' && h.network == n && h.row.env == env && h.row.vm == v {
      NamesHaveRows(rows, cands, env, g.vms, v);
      var r :| r in rows' && r.env == env && r.vm == v;
      assert Held(n, r) in t';
    }
  }

  /** What a deploy leaves: the rows from before, and for its static groups' VMs rows on their networks, at
      candidates; no address is held twice. */
  ghost predicate Leaves(c: Catalog, slices: Slices, env: nat, groups: seq<Group>, t: seq<Held>, t': seq<Held>) {
    && t <= t' && (forall n :: HeldOnce(On(t', n)))
    && (forall h :: h in t' && h !in t ==>
          h.row.env == env && h.row.address in CandidatesOn(c, slices, h.network)
          && exists g :: g in groups && g.mode == "static" && g.network == h.network && h.row.vm in g.vms)
    && forall g, v :: g in groups && g.mode == "static" && v in g.vms ==>
         exists h :: h in t' && h.network == g.network && h.row.env == env && h.row.vm == v
  }

  lemma OneMoreGroup(c: Catalog, slices: Slices, env: nat, front: seq<Group>, g: Group, t: seq<Held>, t': seq<Held>,
                     t'': seq<Held>)
    requires Leaves(c, slices, env, front, t, t')
    requires if g.mode == "static" then Adds(c, slices, env, g, t', t'') else t'' == t'
    ensures Leaves(c, slices, env, front + [g], t, t'')
  {
    hide CandidatesOn, On, HeldOnce;
    forall x, v | x in front + [g] && x.mode == "static" && v in x.vms
      ensures exists h :: h in t'' && h.network == x.network && h.row.env == env && h.row.vm == v
    {
      if x in front {
        var h :| h in t' && h.network == x.network && h.row.env == env && h.row.vm == v;
        assert h in t'';
      }
    }
    forall h | h in t'' && h !in t
      ensures h.row.env == env && h.row.address in CandidatesOn(c, slices, h.network)
      ensures exists x :: x in front + [g] && x.mode == "static" && x.network == h.network && h.row.vm in x.vms
    {
      if h in t' {
        var x :| x in front && x.mode == "static" && x.network == h.network && h.row.vm in x.vms;
        assert x in front + [g];
      } else {
        assert g in front + [g];
      }
    }
  }

  lemma {:induction false} DeployLeaves(c: Catalog, slices: Slices, env: nat, table: seq<Held>, groups: seq<Group>)
    requires Deployed(c, slices, env, table, groups).Some? && forall n :: HeldOnce(On(table, n))
    ensures Leaves(c, slices, env, groups, table, Deployed(c, slices, env, table, groups).value)
  {
    hide AllocatedOn, CandidatesOn, On, HeldOnce, Adds, Leaves;
    if groups == [] {
      NoGroups(c, slices, env, table);
    } else {
      var (front, g) := (groups[..|groups| - 1], groups[|groups| - 1]);
      DeployLeaves(c, slices, env, table, front);
      var t := Deployed(c, slices, env, table, front).value;
      if g.mode == "static" {
        LeavesHeldOnce(c, slices, env, front, table, t, g.network);
        CallAdds(c, slices, env, g, t);
      }
      OneMoreGroup(c, slices, env, front, g, table, t, Deployed(c, slices, env, table, groups).value);
      assert groups == front + [g];
    }
  }

  lemma NoGroups(c: Catalog, slices: Slices, env: nat, table: seq<Held>)
    requires forall n :: HeldOnce(On(table, n))
    ensures Leaves(c, slices, env, [], table, table)
  {
    hide CandidatesOn, On, HeldOnce;
  }

  lemma LeavesHeldOnce(c: Catalog, slices: Slices, env: nat, groups: seq<Group>, t: seq<Held>, t': seq<Held>, n: string)
    requires Leaves(c, slices, env, groups, t, t')
    ensures HeldOnce(On(t', n))
  {
    hide CandidatesOn, On, HeldOnce;
  }

  // --- what the plan reads back -------------------------------------------------------------

  /** `profile_host_groups` looks a VM's address up by its name alone, over all networks: the last row wins. */
  function LookUp(table: seq<Held>, env: nat, vm: string): Option<Held> {
    if table == [] then None
    else
      var h := table[|table| - 1];
      if h.row.env == env && h.row.vm == vm then Some(h) else LookUp(table[..|table| - 1], env, vm)
  }

  lemma {:induction false} LookUpIs(table: seq<Held>, env: nat, vm: string)
    ensures LookUp(table, env, vm).Some? <==> exists h :: h in table && h.row.env == env && h.row.vm == vm
    ensures LookUp(table, env, vm).Some? ==>
      var h := LookUp(table, env, vm).value; h in table && h.row.env == env && h.row.vm == vm
  {
    if table != [] {
      LookUpIs(table[..|table| - 1], env, vm);
      assert table == table[..|table| - 1] + [table[|table| - 1]];
    }
  }

  lemma {:induction false} LookUpConcat(t: seq<Held>, u: seq<Held>, env: nat, vm: string)
    ensures LookUp(t + u, env, vm) == if LookUp(u, env, vm).Some? then LookUp(u, env, vm) else LookUp(t, env, vm)
  {
    if u == [] {
      WithNothing(t);
    } else {
      LookUpConcat(t, u[..|u| - 1], env, vm);
      assert (t + u)[..|t + u| - 1] == t + u[..|u| - 1];
    }
  }

  function HostOf(g: Group, vm: string, table: seq<Held>, env: nat): Host {
    var h := LookUp(table, env, vm);
    Host(g.network, g.mode, if g.mode == "static" && h.Some? then ShowAddr(h.value.row.address) else "", g.roles)
  }

  /** The plan's hosts are the groups' VMs, with the addresses read back. */
  ghost predicate PlanOf(groups: seq<Group>, table: seq<Held>, env: nat, hosts: Hosts, names: seq<string>) {
    && Distinct(names)
    && forall v :: v in names ==>
         v in hosts && exists g :: g in groups && v in g.vms && hosts[v] == HostOf(g, v, table, env)
  }

  predicate IsStatic(hosts: Hosts, v: string) {
    v in hosts && hosts[v].Mode() == "static"
  }

  /** What is read back for the VM is an address its network hands out. */
  predicate ReadsCandidate(c: Catalog, slices: Slices, table: seq<Held>, env: nat, vm: string, network: string) {
    var h := LookUp(table, env, vm);
    h.Some? && h.value.row.address in CandidatesOn(c, slices, network)
  }

  ghost predicate AllReadCandidates(c: Catalog, slices: Slices, table: seq<Held>, env: nat, hosts: Hosts,
                                    names: seq<string>)
  {
    forall v :: v in names && IsStatic(hosts, v) ==> ReadsCandidate(c, slices, table, env, v, hosts[v].network)
  }

  /** The same address is read back for both. */
  predicate ReadsSame(table: seq<Held>, env: nat, v: string, w: string) {
    var (h, k) := (LookUp(table, env, v), LookUp(table, env, w));
    h.Some? && k.Some? && h.value.row.address == k.value.row.address
  }

  ghost predicate NoneReadSame(table: seq<Held>, env: nat, hosts: Hosts, names: seq<string>) {
    forall v, w :: v in names && w in names && v != w && IsStatic(hosts, v) && IsStatic(hosts, w) ==>
      !ReadsSame(table, env, v, w)
  }

  /** The engine's networks are the host's. */
  ghost predicate Loaded(c: Catalog, slices: Slices, nets: Networks) {
    nets.Keys == slices.Keys && slices.Keys <= c.Keys
    && forall n :: n in slices ==> Some(nets[n]) == MakeNetwork(ForHost(c[n], slices[n]))
  }

  lemma LoadedHost(c: Catalog, slices: Slices, default: string)
    requires Consistent(c) && Attached(c, slices) && slices != map[] && (default == "" || default in slices)
    requires Load(HostCatalog(c, slices), default).Some?
    ensures Loaded(c, slices, Load(HostCatalog(c, slices), default).value)
  {
    hide Consistent, Load, SliceAllowed, MakeNetwork;
    LoadAccepts(c, slices, default);
  }

  // --- when the engine passes it ------------------------------------------------------------

  /** What the check needs to know of the deploy: each static VM has a row. */
  ghost predicate Planned(c: Catalog, slices: Slices, nets: Networks, env: nat, groups: seq<Group>, table: seq<Held>) {
    && Consistent(c) && Loaded(c, slices, nets) && (forall g :: g in groups ==> Resolves(c, slices, g))
    && forall g, v :: g in groups && g.mode == "static" && v in g.vms ==> LookUp(table, env, v).Some?
  }

  lemma GroupNetwork(c: Catalog, slices: Slices, nets: Networks, g: Group)
    requires Loaded(c, slices, nets) && Resolves(c, slices, g)
    ensures g.network in nets && g.mode in nets[g.network].addressing
    ensures forall vm, table, env :: HostOf(g, vm, table, env).Mode() == g.mode
  {
    hide EngineRanges, GatewayOf, AllInside, SomeOverlap, AllAddresses;
    assert Some(nets[g.network]) == MakeNetwork(ForHost(c[g.network], slices[g.network]));
    assert g.mode in nets[g.network].addressing;
    assert Modes(nets[g.network].addressing);
  }

  /** What `resolve` refuses when a group is set is what the engine would complain of in any of its VMs but for the
      address: the network, its modes, and a domain controller that isn't static. */
  lemma ResolvesExactly(c: Catalog, slices: Slices, nets: Networks, g: Group, ip: string, seen: map<string, string>)
    requires Consistent(c) && Loaded(c, slices, nets) && g.mode != ""
    requires !Unreadable(nets, Host(g.network, g.mode, ip, g.roles))
    ensures Resolves(c, slices, g)
        <==> forall x :: x in Complaints(nets, Host(g.network, g.mode, ip, g.roles), seen) ==>
               x !in {UnknownNetwork, ModeNotAllowed, DcNotStatic}
  {
    hide Consistent, StaticProblem, ParseAddr, MakeNetwork;
    var cs := Complaints(nets, Host(g.network, g.mode, ip, g.roles), seen);
    if g.network in slices {
      assert c[g.network].addressing != [] by { AddressingChosen(c, g.network); }
      EngineReads(ForHost(c[g.network], slices[g.network]));
      assert nets[g.network].addressing == c[g.network].addressing;
    }
    assert UnknownNetwork in cs <==> g.network !in nets;
    assert ModeNotAllowed in cs <==> g.network in nets && g.mode !in nets[g.network].addressing;
    assert DcNotStatic in cs <==> g.mode != "static" && "domain_controller" in g.roles;
  }

  lemma AddressingChosen(c: Catalog, n: string)
    requires Consistent(c) && n in c
    ensures c[n].addressing != []
  {
    hide Validate;
    ValidatedFacts(c[n], n, []);
  }

  /** A network that allows static addresses has a pool. */
  lemma StaticHasPool(c: Catalog, slices: Slices, nets: Networks, n: string)
    requires Consistent(c) && Loaded(c, slices, nets) && n in slices && "static" in c[n].addressing
    ensures nets[n].pools != []
  {
    hide Ranges, EngineRanges, GatewayOf, AllInside, SomeOverlap, AllAddresses, Modes, InAny, Validate;
    assert Validate(c[n], n, []) == None;
    ValidatedFacts(c[n], n, []);
    assert Some(nets[n]) == MakeNetwork(ForHost(c[n], slices[n]));
    assert ForHost(c[n], slices[n]).staticPools != [];
  }

  /** On it, the engine has nothing against exactly the addresses the app hands out. */
  lemma FitsExactly(c: Catalog, slices: Slices, nets: Networks, n: string, a: Addr)
    requires Consistent(c) && Loaded(c, slices, nets) && n in slices && "static" in c[n].addressing
    ensures StaticProblem(nets[n], a) == None <==> a in CandidatesOn(c, slices, n)
  {
    hide Candidates, EngineRanges, Ranges, GatewayOf, RulesOf, Consistent, StaticProblem;
    StaticHasPool(c, slices, nets, n);
    assert Some(nets[n]) == MakeNetwork(ForHost(c[n], slices[n]));
    CandidatesHaveNoProblem(c[n], slices[n], a);
  }

  /** One VM's part: it is on a known network that allows its mode; and if it is static, its address is
      unobjectionable exactly when its network hands it out. */
  lemma PlacedHost(c: Catalog, slices: Slices, nets: Networks, env: nat, groups: seq<Group>, table: seq<Held>,
                   g: Group, v: string)
    requires Planned(c, slices, nets, env, groups, table) && g in groups && v in g.vms
    ensures var h := HostOf(g, v, table, env);
            && h.network == g.network && h.roles == g.roles
            && g.network in nets && h.Mode() == g.mode && g.mode in nets[g.network].addressing
            && ("domain_controller" in g.roles ==> g.mode == "static")
            && (g.mode == "static" ==>
                  && LookUp(table, env, v).Some? && ParseAddr(h.ip) == Some(LookUp(table, env, v).value.row.address)
                  && (StaticProblem(nets[g.network], LookUp(table, env, v).value.row.address) == None
                      <==> ReadsCandidate(c, slices, table, env, v, g.network)))
  {
    hide CandidatesOn, Consistent, Loaded, StaticProblem, ParseAddr, ShowAddr;
    GroupNetwork(c, slices, nets, g);
    if g.mode == "static" {
      var a := LookUp(table, env, v).value.row.address;
      ParseShow(a);
      FitsExactly(c, slices, nets, g.network, a);
    }
  }

  /** The group a VM of the plan is in, and what follows for its host. */
  lemma GroupOf(c: Catalog, slices: Slices, nets: Networks, env: nat, groups: seq<Group>, table: seq<Held>,
                hosts: Hosts, names: seq<string>, v: string)
    requires Planned(c, slices, nets, env, groups, table) && PlanOf(groups, table, env, hosts, names) && v in names
    ensures v in hosts && !Unreadable(nets, hosts[v])
    ensures hosts[v].network in nets && hosts[v].Mode() in nets[hosts[v].network].addressing
    ensures "domain_controller" in hosts[v].roles ==> IsStatic(hosts, v)
    ensures IsStatic(hosts, v) ==>
              && LookUp(table, env, v).Some?
              && ParseAddr(hosts[v].ip) == Some(LookUp(table, env, v).value.row.address)
              && (StaticProblem(nets[hosts[v].network], LookUp(table, env, v).value.row.address) == None
                  <==> ReadsCandidate(c, slices, table, env, v, hosts[v].network))
  {
    hide Planned, ParseAddr, StaticProblem, ReadsCandidate, HostOf;
    var g :| g in groups && v in g.vms && hosts[v] == HostOf(g, v, table, env);
    PlacedHost(c, slices, nets, env, groups, table, g, v);
  }

  lemma SameText(x: string, y: string)
    requires ParseAddr(x).Some? && ParseAddr(y).Some?
    ensures x == y <==> ParseAddr(x) == ParseAddr(y)
  {
    hide ParseAddr;
    ShowParse(x);
    ShowParse(y);
  }

  lemma SoundIs(c: Catalog, slices: Slices, nets: Networks, env: nat, groups: seq<Group>, table: seq<Held>,
                hosts: Hosts, names: seq<string>, i: nat)
    requires Planned(c, slices, nets, env, groups, table) && PlanOf(groups, table, env, hosts, names) && i < |names|
    ensures forall v :: v in names ==> v in hosts
    ensures Sound(nets, hosts, names, i)
        <==> (IsStatic(hosts, names[i]) ==>
                && ReadsCandidate(c, slices, table, env, names[i], hosts[names[i]].network)
                && forall j :: 0 <= j < i && IsStatic(hosts, names[j]) ==> !ReadsSame(table, env, names[j], names[i]))
  {
    hide Planned, ParseAddr, StaticProblem, ReadsCandidate, HostOf, Unreadable;
    var v := names[i];
    GroupOf(c, slices, nets, env, groups, table, hosts, names, v);
    EmptyIsNoAddress();
    forall j | 0 <= j < i && IsStatic(hosts, v)
      ensures IsStatic(hosts, names[j]) <==> Records(nets, hosts[names[j]])
      ensures IsStatic(hosts, names[j]) ==> (hosts[names[j]].ip == hosts[v].ip <==> ReadsSame(table, env, names[j], v))
    {
      GroupOf(c, slices, nets, env, groups, table, hosts, names, names[j]);
      if IsStatic(hosts, names[j]) {
        SameText(hosts[names[j]].ip, hosts[v].ip);
      }
    }
  }

  lemma NamesAndPlaces(table: seq<Held>, env: nat, hosts: Hosts, names: seq<string>)
    requires Distinct(names)
    ensures NoneReadSame(table, env, hosts, names)
        <==> forall i, j :: 0 <= j < i < |names| && IsStatic(hosts, names[i]) && IsStatic(hosts, names[j]) ==>
               !ReadsSame(table, env, names[j], names[i])
  {
    hide ReadsSame, IsStatic;
    forall v, w ensures ReadsSame(table, env, v, w) <==> ReadsSame(table, env, w, v) {
      ReadsSameBack(table, env, v, w);
    }
    if forall i, j :: 0 <= j < i < |names| && IsStatic(hosts, names[i]) && IsStatic(hosts, names[j]) ==>
         !ReadsSame(table, env, names[j], names[i])
    {
      forall v, w | v in names && w in names && v != w && IsStatic(hosts, v) && IsStatic(hosts, w)
        ensures !ReadsSame(table, env, v, w)
      {
        var i, j :| 0 <= i < |names| && 0 <= j < |names| && names[i] == v && names[j] == w;
        assert i < j || j < i;
      }
    }
  }

  lemma ReadsSameBack(table: seq<Held>, env: nat, v: string, w: string)
    ensures ReadsSame(table, env, v, w) <==> ReadsSame(table, env, w, v)
  {
  }

  lemma PlanPassesExactly(c: Catalog, slices: Slices, nets: Networks, env: nat, groups: seq<Group>, table: seq<Held>,
                          hosts: Hosts, names: seq<string>)
    requires Planned(c, slices, nets, env, groups, table) && PlanOf(groups, table, env, hosts, names)
    ensures forall v :: v in names ==> v in hosts && !Unreadable(nets, hosts[v])
    ensures Report(nets, hosts, names, Elements(names)) == []
        <==> AllReadCandidates(c, slices, table, env, hosts, names) && NoneReadSame(table, env, hosts, names)
  {
    hide Planned, Unreadable, Report, Sound, ReadsCandidate, ReadsSame, HostOf, IsStatic;
    forall v | v in names ensures v in hosts && !Unreadable(nets, hosts[v]) {
      GroupOf(c, slices, nets, env, groups, table, hosts, names, v);
    }
    PassesExactly(nets, hosts, names, Elements(names));
    NamesAndPlaces(table, env, hosts, names);
    forall i | 0 <= i < |names|
      ensures Sound(nets, hosts, names, i)
          <==> (IsStatic(hosts, names[i]) ==>
                  && ReadsCandidate(c, slices, table, env, names[i], hosts[names[i]].network)
                  && forall j :: 0 <= j < i && IsStatic(hosts, names[j]) ==> !ReadsSame(table, env, names[j], names[i]))
    {
      SoundIs(c, slices, nets, env, groups, table, hosts, names, i);
    }
  }

  /** The catalog is consistent, the slices were accepted and have no trailing dash, and the groups resolve. */
  ghost predicate Ready(c: Catalog, slices: Slices, default: string, groups: seq<Group>) {
    && Consistent(c) && Attached(c, slices) && slices != map[] && (default == "" || default in slices)
    && (forall n :: n in slices ==> NoTrailingDash(c[n], slices[n]))
    && forall g :: g in groups ==> Resolves(c, slices, g)
  }

  lemma ReadyLoads(c: Catalog, slices: Slices, default: string, groups: seq<Group>)
    requires Ready(c, slices, default, groups)
    ensures slices.Keys <= c.Keys && Load(HostCatalog(c, slices), default).Some?
    ensures Consistent(c) && Loaded(c, slices, Load(HostCatalog(c, slices), default).value)
    ensures forall g :: g in groups ==> Resolves(c, slices, g)
  {
    hide Consistent, SliceAllowed, NoTrailingDash, Load, Loaded, Resolves;
    LoadAccepts(c, slices, default);
    LoadedHost(c, slices, default);
  }

  /** App and engine end to end, whatever the table holds. From a consistent catalog, accepted slices without
      trailing dashes and groups that resolve, the engine loads the networks; and when the deploy's calls succeed,
      the plan with the addresses read back passes the check, on however many networks and groups, exactly when
      each static VM's address is one its network hands out, and no two are the same. */
  lemma DeployedPlanPasses(c: Catalog, slices: Slices, default: string, env: nat, table: seq<Held>, groups: seq<Group>,
                           hosts: Hosts, names: seq<string>)
    requires Ready(c, slices, default, groups) && Deployed(c, slices, env, table, groups).Some?
    requires PlanOf(groups, Deployed(c, slices, env, table, groups).value, env, hosts, names)
    ensures slices.Keys <= c.Keys && Load(HostCatalog(c, slices), default).Some?
    ensures var (nets, table') := (Load(HostCatalog(c, slices), default).value,
                                   Deployed(c, slices, env, table, groups).value);
            && (forall v :: v in names ==> v in hosts && !Unreadable(nets, hosts[v]))
            && (Report(nets, hosts, names, Elements(names)) == []
                <==> AllReadCandidates(c, slices, table', env, hosts, names) && NoneReadSame(table', env, hosts, names))
  {
    hide Consistent, Ready, Load, Loaded, Resolves, Deployed, PlanOf, AllReadCandidates, NoneReadSame, Report,
         Unreadable, LookUp;
    ReadyLoads(c, slices, default, groups);
    DeployedRows(c, slices, env, table, groups);
    PlanPassesExactly(c, slices, Load(HostCatalog(c, slices), default).value, env, groups,
                      Deployed(c, slices, env, table, groups).value, hosts, names);
  }

  // --- over the table from before -----------------------------------------------------------

  /** The environment has a row for the VM on the network. */
  ghost predicate HasRowOn(table: seq<Held>, env: nat, vm: string, network: string) {
    exists h :: h in table && h.network == network && h.row.env == env && h.row.vm == vm
  }

  predicate Wants(g: Group, vm: string) {
    g.mode == "static" && vm in g.vms
  }

  /** What one group's call changes in a look-up: nothing, unless the VM is in it and had no row on its network;
      then its new row there is found. */
  lemma CallLookUp(c: Catalog, slices: Slices, env: nat, g: Group, t: seq<Held>, vm: string)
    requires AllocatedOn(t, g.network, CandidatesOn(c, slices, g.network), env, g.vms).1.Given?
    ensures var t' := AllocatedOn(t, g.network, CandidatesOn(c, slices, g.network), env, g.vms).0;
            if vm in g.vms && !HasRowOn(t, env, vm, g.network) then
              && LookUp(t', env, vm).Some? && LookUp(t', env, vm).value.network == g.network
              && LookUp(t', env, vm).value.row.address in CandidatesOn(c, slices, g.network)
            else LookUp(t', env, vm) == LookUp(t, env, vm)
  {
    hide Allocated, CandidatesOn, On, LookUp;
    var (n, cands) := (g.network, CandidatesOn(c, slices, g.network));
    var rows := On(t, n);
    var added := Allocated(rows, cands, env, g.vms).0[|rows|..];
    LookUpConcat(t, HeldOn(n, added), env, vm);
    LookUpIs(HeldOn(n, added), env, vm);
    OnMembers(t, n);
    AddedFor(rows, cands, env, g.vms, vm);
    if vm in g.vms && !HasRowOn(t, env, vm, n) {
      var i :| 0 <= i < |added| && added[i].env == env && added[i].vm == vm;
      assert HeldOn(n, added)[i] in HeldOn(n, added);
    }
    if LookUp(HeldOn(n, added), env, vm).Some? {
      var h := LookUp(HeldOn(n, added), env, vm).value;
      var i :| 0 <= i < |added| && HeldOn(n, added)[i] == h;
      assert added[i] in added;
    }
  }

  /** The rows a call adds for a VM: some, at candidates, when it asks for the VM and the VM had none, and else
      none. */
  lemma AddedFor(rows: seq<Row>, candidates: seq<Addr>, env: nat, names: seq<string>, vm: string)
    requires Allocated(rows, candidates, env, names).1.Given?
    ensures var (added, had) := (Allocated(rows, candidates, env, names).0[|rows|..],
                                 exists r :: r in rows && r.env == env && r.vm == vm);
            && (forall r :: r in added && r.vm == vm ==> r.env == env && r.address in candidates && vm in names && !had)
            && (vm in names && !had ==> exists i :: 0 <= i < |added| && added[i].env == env && added[i].vm == vm)
  {
    hide Needing, Free, Mine, NewRows, AddressesFor;
    NewRowsAre(rows, candidates, env, names);
    MineAre(rows, env);
    var rows' := Allocated(rows, candidates, env, names).0;
    var added := NewRows(env, Needing(names, Mine(rows, env)), Free(candidates, AddressList(rows)));
    assert (rows + added)[|rows|..] == added;
    if vm in names && !exists r :: r in rows && r.env == env && r.vm == vm {
      NamesHaveRows(rows, candidates, env, names, vm);
      var r :| r in rows' && r.env == env && r.vm == vm;
      assert r in rows + added && r !in rows;
    }
  }

  /** A deploy's look-up of a VM whose static groups are all on one network, over the table from before: its
      row there, if it had one, doesn't change what is found; otherwise a new row there, at an address the
      network hands out, is found. */
  lemma {:induction false} DeployLookUp(c: Catalog, slices: Slices, env: nat, table: seq<Held>, groups: seq<Group>,
                                       vm: string, n: string)
    requires Deployed(c, slices, env, table, groups).Some?
    requires forall g :: g in groups && Wants(g, vm) ==> g.network == n
    ensures var (t, h) := (Deployed(c, slices, env, table, groups).value,
                           LookUp(Deployed(c, slices, env, table, groups).value, env, vm));
            && table <= t
            && if HasRowOn(table, env, vm, n) || !(exists g :: g in groups && Wants(g, vm)) then
                 h == LookUp(table, env, vm)
               else h.Some? && h.value.network == n && h.value.row.address in CandidatesOn(c, slices, n)
    decreases |groups|
  {
    hide AllocatedOn, CandidatesOn, LookUp;
    if groups != [] {
      var (front, g) := (groups[..|groups| - 1], groups[|groups| - 1]);
      assert groups == front + [g];
      DeployLookUp(c, slices, env, table, front, vm, n);
      var t := Deployed(c, slices, env, table, front).value;
      if g.mode == "static" {
        CallGrows(c, slices, env, g, t);
        CallLookUp(c, slices, env, g, t, vm);
        if Wants(g, vm) {
          RowStays(table, t, env, vm, n);
          if !HasRowOn(table, env, vm, n) && exists x :: x in front && Wants(x, vm) {
            LookUpIs(t, env, vm);
            assert HasRowOn(t, env, vm, n);
          } else if !HasRowOn(table, env, vm, n) {
            NoRowYet(c, slices, env, table, front, vm, n);
          }
        }
      }
    }
  }

  lemma CallGrows(c: Catalog, slices: Slices, env: nat, g: Group, t: seq<Held>)
    ensures t <= AllocatedOn(t, g.network, CandidatesOn(c, slices, g.network), env, g.vms).0
  {
    hide Allocated, On, CandidatesOn;
  }

  lemma RowStays(t: seq<Held>, t': seq<Held>, env: nat, vm: string, n: string)
    requires t <= t'
    ensures HasRowOn(t, env, vm, n) ==> HasRowOn(t', env, vm, n)
  {
    if HasRowOn(t, env, vm, n) {
      var h :| h in t && h.network == n && h.row.env == env && h.row.vm == vm;
      assert h in t';
    }
  }

  /** Groups without the VM add no row for it. */
  lemma {:induction false} NoRowYet(c: Catalog, slices: Slices, env: nat, table: seq<Held>, groups: seq<Group>,
                                   vm: string, n: string)
    requires Deployed(c, slices, env, table, groups).Some? && !HasRowOn(table, env, vm, n)
    requires forall g :: g in groups ==> !Wants(g, vm)
    ensures !HasRowOn(Deployed(c, slices, env, table, groups).value, env, vm, n)
  {
    hide AllocatedOn, CandidatesOn, HasRowOn;
    if groups != [] {
      var (front, g) := (groups[..|groups| - 1], groups[|groups| - 1]);
      assert groups == front + [g];
      NoRowYet(c, slices, env, table, front, vm, n);
      assert g in groups;
      if g.mode == "static" {
        OthersGetNone(c, slices, env, g, Deployed(c, slices, env, table, front).value, vm, n);
      }
    }
  }

  lemma OthersGetNone(c: Catalog, slices: Slices, env: nat, g: Group, t: seq<Held>, vm: string, n: string)
    requires AllocatedOn(t, g.network, CandidatesOn(c, slices, g.network), env, g.vms).1.Given?
    requires !HasRowOn(t, env, vm, n) && vm !in g.vms
    ensures !HasRowOn(AllocatedOn(t, g.network, CandidatesOn(c, slices, g.network), env, g.vms).0, env, vm, n)
  {
    hide Allocated, CandidatesOn, On;
    var (m, cands) := (g.network, CandidatesOn(c, slices, g.network));
    var rows := On(t, m);
    var added := Allocated(rows, cands, env, g.vms).0[|rows|..];
    AddedFor(rows, cands, env, g.vms, vm);
    forall h | h in HeldOn(m, added) ensures h.row.vm != vm {
      var i :| 0 <= i < |added| && HeldOn(m, added)[i] == h;
      assert added[i] in added;
    }
  }

  /** After a deploy each static VM has a row to be found. */
  lemma DeployedRows(c: Catalog, slices: Slices, env: nat, table: seq<Held>, groups: seq<Group>)
    requires Deployed(c, slices, env, table, groups).Some?
    ensures forall g, v :: g in groups && g.mode == "static" && v in g.vms ==>
              LookUp(Deployed(c, slices, env, table, groups).value, env, v).Some?
  {
    hide LookUp, Deployed;
    forall g, v | g in groups && g.mode == "static" && v in g.vms
      ensures LookUp(Deployed(c, slices, env, table, groups).value, env, v).Some?
    {
      DeployedRow(c, slices, env, table, groups, g, v);
    }
  }

  lemma {:induction false} DeployedRow(c: Catalog, slices: Slices, env: nat, table: seq<Held>, groups: seq<Group>,
                                      g: Group, v: string)
    requires Deployed(c, slices, env, table, groups).Some? && g in groups && Wants(g, v)
    ensures LookUp(Deployed(c, slices, env, table, groups).value, env, v).Some?
    decreases |groups|
  {
    hide AllocatedOn, CandidatesOn, LookUp;
    var (front, last) := (groups[..|groups| - 1], groups[|groups| - 1]);
    assert groups == front + [last];
    var t := Deployed(c, slices, env, table, front).value;
    if last.mode == "static" {
      CallLookUp(c, slices, env, last, t, v);
      if g in front {
        DeployedRow(c, slices, env, table, front, g, v);
      } else {
        LookUpIs(t, env, v);
      }
    } else {
      DeployedRow(c, slices, env, table, front, g, v);
    }
  }

  /** Whether a VM is given an address its network hands out, and from its own row there, is settled by the table
      from before: it is so when it had no row on its network, and otherwise when the address, or the row, found
      then was. */
  lemma ReadsFromBefore(c: Catalog, slices: Slices, env: nat, table: seq<Held>, groups: seq<Group>, vm: string,
                        n: string)
    requires Deployed(c, slices, env, table, groups).Some?
    requires (exists g :: g in groups && Wants(g, vm)) && forall g :: g in groups && Wants(g, vm) ==> g.network == n
    ensures var t := Deployed(c, slices, env, table, groups).value;
            && (ReadsCandidate(c, slices, t, env, vm, n)
                <==> !HasRowOn(table, env, vm, n) || ReadsCandidate(c, slices, table, env, vm, n))
            && (ReadsOwn(t, env, vm, n) <==> !HasRowOn(table, env, vm, n) || ReadsOwn(table, env, vm, n))
  {
    hide Deployed, CandidatesOn, HasRowOn, LookUp, Wants;
    DeployLookUp(c, slices, env, table, groups, vm, n);
  }

  // --- when the rows still stand ------------------------------------------------------------

  /** What is read back for the VM is its row on its own network. */
  predicate ReadsOwn(table: seq<Held>, env: nat, vm: string, network: string) {
    var h := LookUp(table, env, vm);
    h.Some? && h.value.network == network
  }

  ghost predicate AllReadOwn(table: seq<Held>, env: nat, hosts: Hosts, names: seq<string>) {
    forall v :: v in names && IsStatic(hosts, v) ==> ReadsOwn(table, env, v, hosts[v].network)
  }

  /** The environment's rows, from whenever, are in their networks' blocks, and on the host's networks still
      at addresses these hand out. */
  ghost predicate Standing(c: Catalog, slices: Slices, env: nat, table: seq<Held>) {
    forall h :: h in table && h.row.env == env ==>
      && h.network in c && c[h.network].cidr.Some? && c[h.network].cidr.value.Has(h.row.address)
      && (h.network in slices ==> h.row.address in CandidatesOn(c, slices, h.network))
  }

  lemma CandidateFits(c: Catalog, slices: Slices, nets: Networks, n: string, a: Addr)
    requires Loaded(c, slices, nets) && n in slices && a in CandidatesOn(c, slices, n)
    ensures c[n].cidr.Some? && c[n].cidr.value.Has(a)
  {
    hide Candidates, EngineRanges, Ranges, GatewayOf, RulesOf;
    assert Some(nets[n]) == MakeNetwork(ForHost(c[n], slices[n]));
    CandidatesHaveNoProblem(c[n], slices[n], a);
  }

  lemma OtherNetworkDiffers(c: Catalog, m: string, n: string, a: Addr)
    requires Consistent(c) && m in c && n in c && m != n && c[m].cidr.Some? && c[n].cidr.Some?
    requires c[m].cidr.value.Has(a)
    ensures !c[n].cidr.value.Has(a)
  {
    hide Validate;
    assert Apart(c[m], c[n]);
    OverlapIsSharedAddress(c[m].cidr.value, c[n].cidr.value);
  }

  lemma OwnIsCandidate(c: Catalog, slices: Slices, nets: Networks, env: nat, table: seq<Held>, vm: string, n: string)
    requires Consistent(c) && Loaded(c, slices, nets) && Standing(c, slices, env, table) && n in slices
    requires LookUp(table, env, vm).Some?
    ensures ReadsOwn(table, env, vm, n) <==> ReadsCandidate(c, slices, table, env, vm, n)
  {
    hide CandidatesOn, Consistent, Loaded, LookUp;
    LookUpIs(table, env, vm);
    var h := LookUp(table, env, vm).value;
    if h.network != n && h.row.address in CandidatesOn(c, slices, n) {
      CandidateFits(c, slices, nets, n, h.row.address);
      SlicesInCatalog(c, slices, nets, n);
      OtherNetworkDiffers(c, h.network, n, h.row.address);
    }
  }

  lemma SlicesInCatalog(c: Catalog, slices: Slices, nets: Networks, n: string)
    requires Loaded(c, slices, nets) && n in slices
    ensures n in c
  {
  }

  lemma TwoRows(rows: seq<Row>, a: Row, b: Row)
    requires HeldOnce(rows) && a in rows && b in rows && a != b
    ensures a.address != b.address
  {
  }

  lemma OwnRowsDiffer(c: Catalog, env: nat, slices: Slices, table: seq<Held>, v: string, w: string)
    requires Consistent(c) && Standing(c, slices, env, table) && (forall n :: HeldOnce(On(table, n))) && v != w
    ensures !ReadsSame(table, env, v, w)
  {
    hide CandidatesOn, On, HeldOnce, Consistent, LookUp;
    LookUpIs(table, env, v);
    LookUpIs(table, env, w);
    if LookUp(table, env, v).Some? && LookUp(table, env, w).Some? {
      var (h, k) := (LookUp(table, env, v).value, LookUp(table, env, w).value);
      if h.network == k.network {
        OnMembers(table, h.network);
        TwoRows(On(table, h.network), h.row, k.row);
      } else {
        OtherNetworkDiffers(c, h.network, k.network, h.row.address);
      }
    }
  }

  lemma StandingAfter(c: Catalog, slices: Slices, nets: Networks, env: nat, table: seq<Held>, groups: seq<Group>)
    requires Loaded(c, slices, nets) && (forall g :: g in groups ==> Resolves(c, slices, g))
    requires (forall n :: HeldOnce(On(table, n))) && Standing(c, slices, env, table)
    requires Deployed(c, slices, env, table, groups).Some?
    ensures var t := Deployed(c, slices, env, table, groups).value;
            (forall n :: HeldOnce(On(t, n))) && Standing(c, slices, env, t)
  {
    hide Loaded, CandidatesOn, On, HeldOnce, Deployed;
    DeployLeaves(c, slices, env, table, groups);
    var table' := Deployed(c, slices, env, table, groups).value;
    forall h | h in table' && h !in table
      ensures h.network in c && c[h.network].cidr.Some? && c[h.network].cidr.value.Has(h.row.address)
    {
      var g :| g in groups && g.mode == "static" && g.network == h.network && h.row.vm in g.vms;
      CandidateFits(c, slices, nets, h.network, h.row.address);
    }
  }

  /** With a table as runs of calls leave it, and the environment's rows still standing: the check passes the plan
      exactly when each static VM's address is read back from its own network. */
  lemma StandingPlanPasses(c: Catalog, slices: Slices, default: string, env: nat, table: seq<Held>, groups: seq<Group>,
                           hosts: Hosts, names: seq<string>)
    requires Ready(c, slices, default, groups) && Deployed(c, slices, env, table, groups).Some?
    requires PlanOf(groups, Deployed(c, slices, env, table, groups).value, env, hosts, names)
    requires (forall n :: HeldOnce(On(table, n))) && Standing(c, slices, env, table)
    ensures slices.Keys <= c.Keys && Load(HostCatalog(c, slices), default).Some?
    ensures var (nets, table') := (Load(HostCatalog(c, slices), default).value,
                                   Deployed(c, slices, env, table, groups).value);
            && (forall v :: v in names ==> v in hosts && !Unreadable(nets, hosts[v]))
            && (Report(nets, hosts, names, Elements(names)) == [] <==> AllReadOwn(table', env, hosts, names))
  {
    hide Consistent, Ready, Load, Resolves, Deployed, Report, Unreadable, LookUp, Standing, HeldOnce, On,
         ReadsOwn, ReadsCandidate, ReadsSame, HostOf;
    DeployedPlanPasses(c, slices, default, env, table, groups, hosts, names);
    ReadyLoads(c, slices, default, groups);
    var (nets, t) := (Load(HostCatalog(c, slices), default).value, Deployed(c, slices, env, table, groups).value);
    StandingAfter(c, slices, nets, env, table, groups);
    DeployedRows(c, slices, env, table, groups);
    forall v | v in names && IsStatic(hosts, v)
      ensures ReadsOwn(t, env, v, hosts[v].network) <==> ReadsCandidate(c, slices, t, env, v, hosts[v].network)
    {
      GroupOf(c, slices, nets, env, groups, t, hosts, names, v);
      OwnIsCandidate(c, slices, nets, env, t, v, hosts[v].network);
    }
    forall v, w | v != w ensures !ReadsSame(t, env, v, w) {
      OwnRowsDiffer(c, env, slices, t, v, w);
    }
  }
}
