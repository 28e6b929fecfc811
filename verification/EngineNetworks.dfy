/** The engine's own reading of the same catalog (environment.yml), which checks every static address
    again after the plan. */
module EngineNetworks {
  import opened Wrappers
  import opened Text
  import opened Ipv4
  import opened NetPolicy

  /** The engine's `parse_range`. None is an error, for a malformed address or a range that ends first. */
  function EngineRange(text: string): Option<Range> {
    var t := Strip(text);
    var dash := Find(t, '-', 0);
    var (a, b) := if dash.Some? then (Strip(t[..dash.value]), Strip(t[dash.value + 1..])) else (t, t);
    var (first, last) := (ParseAddr(a), ParseAddr(b));
    if first == None || last == None || last.value < first.value then None else Some(Range(first.value, last.value))
  }

  function EngineRanges(texts: seq<string>): (r: Option<seq<Range>>)
    ensures r.Some? <==> forall i :: 0 <= i < |texts| ==> EngineRange(texts[i]).Some?
    ensures r.Some? ==> |r.value| == |texts|
    ensures r.Some? ==> forall i :: 0 <= i < |texts| ==> EngineRange(texts[i]) == Some(r.value[i])
  {
    if texts == [] then Some([])
    else
      var (first, more) := (EngineRange(texts[0]), EngineRanges(texts[1..]));
      if first == None || more == None then None else Some([first.value] + more.value)
  }

  datatype Network = Network(cidr: Cidr, gateway: Addr, addressing: seq<string>, pools: seq<Range>, dhcp: seq<Range>,
                             reserved: seq<Range>)

  /** `_network`; None is an error. An empty list of modes means static. */
  function MakeNetwork(f: Fields): Option<Network> {
    if f.cidr == None then None
    else
      var cidr := f.cidr.value;
      var gateway := GatewayOf(f.gateway, cidr);
      var modes := if f.addressing == [] then ["static"] else f.addressing;
      var (pools, dhcp, reserved) := (EngineRanges(f.staticPools), EngineRanges(f.dhcp), EngineRanges(f.reserved));
      if gateway == None || !cidr.Has(gateway.value) || !Modes(modes) || !AllAddresses(f.dns) then None
      else if pools == None || dhcp == None || reserved == None then None
      else if !AllInside(pools.value, cidr) || !AllInside(dhcp.value, cidr) || !AllInside(reserved.value, cidr)
      then None
      else if SomeOverlap(pools.value, dhcp.value + reserved.value) then None
      else Some(Network(cidr, gateway.value, modes, pools.value, dhcp.value, reserved.value))
  }

  datatype Problem = Outside | NetworkBroadcastOrGateway | InReserved | InDhcp | OutsidePools

  /** `static_problem` */
  function StaticProblem(net: Network, a: Addr): Option<Problem> {
    if !net.cidr.Has(a) then Some(Outside)
    else if a == net.cidr.Network() || a == net.cidr.Broadcast() || a == net.gateway
    then Some(NetworkBroadcastOrGateway)
    else if InAny(net.reserved, a) then Some(InReserved)
    else if InAny(net.dhcp, a) then Some(InDhcp)
    else if net.pools != [] && !InAny(net.pools, a) then Some(OutsidePools)
    else None
  }

  /** The fields the app writes for the engine on one host: the host's slice stands in for the pools. */
  function ForHost(f: Fields, slice: seq<string>): Fields {
    f.(staticPools := if slice != [] then slice else f.staticPools)
  }

  // --- the two readings of a range ----------------------------------------------------------

  /** A dash with nothing after it. */
  predicate TrailingDash(text: string) {
    var t := Strip(text);
    Find(t, '-', 0) == Some(|t| - 1)
  }

  /** Both readings agree, but for a range with nothing after its dash, which only the app accepts. */
  lemma RangesAgree(text: string)
    ensures EngineRange(text) == if TrailingDash(text) then None else ParseRange(text)
  {
    hide ParseAddr;
    var t := Strip(text);
    StripTwice(text);
    var dash := Find(t, '-', 0);
    if dash.Some? {
      var b := t[dash.value + 1..];
      if TrailingDash(text) {
        assert b == "";
        EmptyIsNoAddress();
      } else {
        assert b != "";
      }
    }
  }

  /** An address with a dash after it: the app reads the address, the engine refuses. */
  lemma TrailingDashDiffers(a: Addr)
    ensures var text := ShowAddr(a) + "-"; ParseRange(text) == Some(Range(a, a)) && EngineRange(text) == None
  {
    hide ShowAddr, ParseAddr, Strip, Find;
    var (s, text) := (ShowAddr(a), ShowAddr(a) + "-");
    ShowAddrChars(a);
    assert text[0] == s[0] && text[|text| - 1] == '-';
    StripPlain(text);
    assert Find(text, '-', 0) == Some(|s|) by { FirstDash(s); }
    assert text[..|s|] == s && text[|s| + 1..] == "";
    ParseShow(a);
    EmptyIsNoAddress();
  }

  lemma FirstDash(s: string)
    requires forall i :: 0 <= i < |s| ==> s[i] != '-'
    ensures Find(s + "-", '-', 0) == Some(|s|)
  {
    var t := s + "-";
    assert t[|s|] == '-';
    assert forall i :: 0 <= i < |s| ==> t[i] == s[i];
  }

  predicate SomeTrailingDash(texts: seq<string>) {
    exists i :: 0 <= i < |texts| && TrailingDash(texts[i])
  }

  /** No range that the app writes for the engine, for a network with this slice of it, has one. */
  predicate NoTrailingDash(f: Fields, slice: seq<string>) {
    !SomeTrailingDash(ForHost(f, slice).staticPools) && !SomeTrailingDash(f.dhcp) && !SomeTrailingDash(f.reserved)
  }

  lemma RangeListsAgree(texts: seq<string>)
    requires Ranges(texts).Some?
    ensures EngineRanges(texts).Some? <==> !SomeTrailingDash(texts)
    ensures EngineRanges(texts).Some? ==> EngineRanges(texts) == Ranges(texts)
  {
    hide ParseRange, EngineRange, TrailingDash, EngineRanges, Ranges;
    forall i | 0 <= i < |texts|
      ensures EngineRange(texts[i]) == if TrailingDash(texts[i]) then None else ParseRange(texts[i])
    {
      RangesAgree(texts[i]);
    }
    if EngineRanges(texts).Some? {
      assert EngineRanges(texts).value == Ranges(texts).value;
    }
  }

  // --- main results -------------------------------------------------------------------------

  lemma InAnyConcat(a: seq<Range>, b: seq<Range>, x: Addr)
    ensures InAny(a + b, x) <==> InAny(a, x) || InAny(b, x)
  {
    if InAny(a, x) {
      var i :| 0 <= i < |a| && a[i].Has(x);
      assert (a + b)[i].Has(x);
    }
    if InAny(b, x) {
      var i :| 0 <= i < |b| && b[i].Has(x);
      assert (a + b)[|a| + i].Has(x);
    }
  }

  /** Ranges the engine's reading accepts, the app's reads the same. */
  lemma AppReadsThemToo(texts: seq<string>)
    requires EngineRanges(texts).Some?
    ensures Ranges(texts) == EngineRanges(texts)
  {
    hide ParseRange, EngineRange, TrailingDash, EngineRanges, Ranges;
    forall i | 0 <= i < |texts| ensures EngineRange(texts[i]) == ParseRange(texts[i]) {
      RangesAgree(texts[i]);
    }
    assert Ranges(texts).value == EngineRanges(texts).value;
  }

  /** The allocator and the checker, written apart, agree: on a network the engine accepts, with at
      least one pool, the addresses the app may hand out are exactly those the engine has nothing
      against. */
  lemma CandidatesHaveNoProblem(f: Fields, slice: seq<string>, a: Addr)
    requires MakeNetwork(ForHost(f, slice)).Some?
    ensures RulesOf(f, slice).Some?
    ensures var (r, net) := (RulesOf(f, slice).value, MakeNetwork(ForHost(f, slice)).value);
            a in Candidates(r) <==> net.pools != [] && StaticProblem(net, a) == None
  {
    hide Ranges, EngineRanges, GatewayOf, Candidates;
    var net := MakeNetwork(ForHost(f, slice)).value;
    AppReadsThemToo(ForHost(f, slice).staticPools);
    AppReadsThemToo(f.dhcp);
    AppReadsThemToo(f.reserved);
    var r := RulesOf(f, slice).value;
    CandidatesAre(r, a);
    InAnyConcat(net.dhcp, net.reserved, a);
    if InAny(net.pools, a) {
      var i :| 0 <= i < |net.pools| && net.pools[i].Has(a);
      assert net.cidr.Has(net.pools[i].first) && net.cidr.Has(net.pools[i].last);
    }
  }

  /** The engine reads a gateway left out as the first address too, and has something against its use. */
  lemma EngineKeepsGateway(f: Fields)
    requires f.cidr.Some?
    ensures forall a: Addr :: IsGateway(f, a) && MakeNetwork(f).Some? ==>
              StaticProblem(MakeNetwork(f).value, a) == Some(NetworkBroadcastOrGateway)
    ensures var first := f.cidr.value.Network() + 1;
            f.gateway == "" ==>
              MakeNetwork(f) == if first < 0x1_0000_0000 then MakeNetwork(f.(gateway := ShowAddr(first))) else None
  {
    hide ShowAddr, GatewayOf, EngineRanges, Modes, AllAddresses, AllInside, SomeOverlap, InAny;
    forall a: Addr ensures GatewayOf(f.gateway, f.cidr.value) == Some(a) <==> IsGateway(f, a) {
      GatewayIs(f, a);
    }
    var first := f.cidr.value.Network() + 1;
    if first < 0x1_0000_0000 {
      GatewayIs(f.(gateway := ShowAddr(first)), first);
      ShowAddrChars(first);
    } else if f.gateway == "" {
      assert forall a: Addr :: !IsGateway(f, a);
    }
  }

  /** What the engine takes, address by address: what the app accepts, and besides it no mode chosen, static
      addressing without a pool, a pool that holds the gateway, and, here, a network overlapping another. */
  lemma EngineTakesExactly(f: Fields)
    ensures MakeNetwork(f).Some?
        <==> && f.cidr.Some? && AddressTexts(f.dns)
             && EngineRanges(f.staticPools).Some? && EngineRanges(f.dhcp).Some? && EngineRanges(f.reserved).Some?
             && (forall i :: 0 <= i < |f.addressing| ==> f.addressing[i] in {"static", "dhcp"})
             && RangesFit(f.cidr.value, EngineRanges(f.staticPools).value, EngineRanges(f.dhcp).value,
                          EngineRanges(f.reserved).value)
             && exists g: Addr :: IsGateway(f, g) && f.cidr.value.Has(g)
  {
    hide EngineRanges, Ranges, AllAddresses, AddressTexts, AllInside, SomeOverlap, RangesFit, GatewayOf, IsGateway;
    AddressTextsAre(f.dns);
    if f.cidr.Some? && EngineRanges(f.staticPools).Some? && EngineRanges(f.dhcp).Some?
       && EngineRanges(f.reserved).Some? {
      AppReadsThemToo(f.staticPools);
      AppReadsThemToo(f.dhcp);
      AppReadsThemToo(f.reserved);
      var pools := EngineRanges(f.staticPools).value;
      var (dhcp, reserved) := (EngineRanges(f.dhcp).value, EngineRanges(f.reserved).value);
      FitIs(f.cidr.value, pools, dhcp, reserved);
      OverlapConcat(pools, dhcp, reserved);
      forall a: Addr ensures GatewayOf(f.gateway, f.cidr.value) == Some(a) <==> IsGateway(f, a) {
        GatewayIs(f, a);
      }
    }
  }

  /** What the engine makes of an entry it takes: what is written there, with static addressing where no mode is. */
  lemma EngineReads(f: Fields)
    requires MakeNetwork(f).Some?
    ensures var net := MakeNetwork(f).value;
            && Some(net.cidr) == f.cidr && IsGateway(f, net.gateway)
            && Ranges(f.staticPools) == Some(net.pools) && Ranges(f.dhcp) == Some(net.dhcp)
            && Ranges(f.reserved) == Some(net.reserved) && (f.addressing != [] ==> net.addressing == f.addressing)
    ensures f.addressing == [] ==> MakeNetwork(f) == MakeNetwork(f.(addressing := ["static"]))
  {
    hide Ranges, EngineRanges, GatewayOf, IsGateway, AllInside, SomeOverlap, AllAddresses;
    AppReadsThemToo(f.staticPools);
    AppReadsThemToo(f.dhcp);
    AppReadsThemToo(f.reserved);
    GatewayIs(f, MakeNetwork(f).value.gateway);
  }

  /** The ends of a block: none of its addresses is lower, or none higher. */
  ghost predicate AtAnEnd(c: Cidr, a: Addr) {
    c.Has(a) && ((forall b: Addr :: c.Has(b) ==> a <= b) || forall b: Addr :: c.Has(b) ==> b <= a)
  }

  lemma EndsAre(c: Cidr, a: Addr)
    ensures AtAnEnd(c, a) <==> a == c.Network() || a == c.Broadcast()
  {
    BlockInRange(c);
    assert c.Has(c.Network()) && c.Has(c.Broadcast());
  }

  /** On any network the engine takes, with pools or without: exactly which addresses static_problem has nothing
      against, and what is wrong with one when it says so. */
  lemma ObjectsExactly(f: Fields, a: Addr)
    requires MakeNetwork(f).Some?
    ensures var (net, why) := (MakeNetwork(f).value, StaticProblem(MakeNetwork(f).value, a));
            && (why == None
                <==> && net.cidr.Has(a) && !AtAnEnd(net.cidr, a) && !IsGateway(f, a)
                     && !InAny(net.reserved, a) && !InAny(net.dhcp, a)
                     && (net.pools != [] ==> InAny(net.pools, a)))
            && (match why
                case None => true
                case Some(Outside) => !net.cidr.Has(a)
                case Some(NetworkBroadcastOrGateway) => AtAnEnd(net.cidr, a) || IsGateway(f, a)
                case Some(InReserved) => InAny(net.reserved, a)
                case Some(InDhcp) => InAny(net.dhcp, a)
                case Some(OutsidePools) => net.pools != [] && !InAny(net.pools, a))
  {
    hide MakeNetwork, Ranges, InAny, IsGateway, AtAnEnd;
    var net := MakeNetwork(f).value;
    EngineReads(f);
    EndsAre(net.cidr, a);
    GatewayIs(f, a);
    GatewayIs(f, net.gateway);
    assert IsGateway(f, a) <==> a == net.gateway;
  }

  lemma OverlapConcat(pools: seq<Range>, a: seq<Range>, b: seq<Range>)
    ensures SomeOverlap(pools, a + b) <==> SomeOverlap(pools, a) || SomeOverlap(pools, b)
  {
    if i, j :| 0 <= i < |pools| && 0 <= j < |a| && pools[i].Overlaps(a[j]) {
      assert (a + b)[j] == a[j];
    }
    if i, j :| 0 <= i < |pools| && 0 <= j < |b| && pools[i].Overlaps(b[j]) {
      assert (a + b)[|a| + j] == b[j];
    }
  }

  lemma MakesExactly(f: Fields)
    requires f.cidr.Some? && GatewayOf(f.gateway, f.cidr.value).Some?
    requires f.cidr.value.Has(GatewayOf(f.gateway, f.cidr.value).value)
    requires f.addressing != [] && Modes(f.addressing) && AllAddresses(f.dns)
    ensures var pools := EngineRanges(f.staticPools);
            var (dhcp, reserved) := (EngineRanges(f.dhcp), EngineRanges(f.reserved));
            MakeNetwork(f).Some?
            <==> pools.Some? && dhcp.Some? && reserved.Some?
                 && AllInside(pools.value, f.cidr.value) && AllInside(dhcp.value, f.cidr.value)
                 && AllInside(reserved.value, f.cidr.value) && !SomeOverlap(pools.value, dhcp.value + reserved.value)
  {
    hide EngineRanges, GatewayOf, Modes, AllAddresses, AllInside, SomeOverlap;
  }

  /** A network the app accepted, with a slice it accepted, is one the engine accepts, exactly when no
      range has a trailing dash. */
  lemma EngineAcceptsValidated(f: Fields, name: string, others: seq<(string, Cidr)>, slice: seq<string>)
    requires Validate(f, name, others) == None && SliceAllowed(slice, f)
    ensures MakeNetwork(ForHost(f, slice)).Some? <==> NoTrailingDash(f, slice)
  {
    hide Ranges, EngineRanges, GatewayOf, SomeTrailingDash, Modes, AllAddresses, Validate, AllInside, SomeOverlap,
         InAny, InsideSome, MakeNetwork, SliceAllowed;
    ValidatedFacts(f, name, others);
    var e := ForHost(f, slice);
    MakesExactly(e);
    RangeListsAgree(f.dhcp);
    RangeListsAgree(f.reserved);
    SliceFacts(f, slice);
    RangeListsAgree(e.staticPools);
    SliceFits(f.cidr.value, Ranges(f.staticPools).value, Ranges(e.staticPools).value, Ranges(f.dhcp).value,
              Ranges(f.reserved).value);
  }

  lemma SliceFacts(f: Fields, slice: seq<string>)
    requires SliceAllowed(slice, f)
    ensures Ranges(f.staticPools).Some? && Ranges(ForHost(f, slice).staticPools).Some?
    ensures var (pools, used) := (Ranges(f.staticPools).value, Ranges(ForHost(f, slice).staticPools).value);
            used == pools || InsideSome(used, pools)
  {
    assert ForHost(f, slice).staticPools == if slice == [] then f.staticPools else slice;
  }

  lemma SliceFits(cidr: Cidr, pools: seq<Range>, used: seq<Range>, dhcp: seq<Range>, reserved: seq<Range>)
    requires AllInside(pools, cidr) && !SomeOverlap(pools, dhcp) && !SomeOverlap(pools, reserved)
    requires used == pools || InsideSome(used, pools)
    requires forall i :: 0 <= i < |used| ==> used[i].first <= used[i].last
    ensures AllInside(used, cidr) && !SomeOverlap(used, dhcp + reserved)
  {
    if used == pools {
      assert forall i :: 0 <= i < |used| ==> used[i].Inside(pools[i]);
    }
    forall i, j | 0 <= i < |used| && 0 <= j < |dhcp + reserved| ensures !used[i].Overlaps((dhcp + reserved)[j]) {
      var k :| 0 <= k < |pools| && used[i].Inside(pools[k]);
      if j < |dhcp| {
        assert !pools[k].Overlaps(dhcp[j]);
      } else {
        assert !pools[k].Overlaps(reserved[j - |dhcp|]);
      }
    }
    forall i | 0 <= i < |used| ensures cidr.Has(used[i].first) && cidr.Has(used[i].last) {
      var k :| 0 <= k < |pools| && used[i].Inside(pools[k]);
      assert cidr.Has(pools[k].first) && cidr.Has(pools[k].last);
    }
  }
}
