/** The network catalog's rules and the addresses the app may hand out on a network. */
module NetPolicy {
  import opened Wrappers
  import opened Sequences
  import opened Text
  import opened Ipv4

  // --- ranges, as text ----------------------------------------------------------------------

  /** `parse_range`: an address, or first-last; nothing after the dash counts as a single address.
      None is PolicyError. */
  function ParseRange(text: string): (r: Option<Range>)
    ensures r.Some? ==> r.value.first <= r.value.last
  {
    var t := Strip(text);
    var dash := Find(t, '-', 0);
    var (a, b) := if dash.Some? then (t[..dash.value], t[dash.value + 1..]) else (t, "");
    var first := ParseAddr(Strip(a));
    var last := if b != "" then ParseAddr(Strip(b)) else first;
    if first == None || last == None || last.value < first.value then None else Some(Range(first.value, last.value))
  }

  function Ranges(texts: seq<string>): (r: Option<seq<Range>>)
    ensures r.Some? <==> forall i :: 0 <= i < |texts| ==> ParseRange(texts[i]).Some?
    ensures r.Some? ==> |r.value| == |texts|
    ensures r.Some? ==> forall i :: 0 <= i < |texts| ==> ParseRange(texts[i]) == Some(r.value[i])
    ensures r.Some? ==> forall i :: 0 <= i < |texts| ==> r.value[i].first <= r.value[i].last
  {
    if texts == [] then Some([])
    else
      var (first, more) := (ParseRange(texts[0]), Ranges(texts[1..]));
      if first == None || more == None then None else Some([first.value] + more.value)
  }

  /** `_fmt`: a range as messages show it. */
  function ShowRange(r: Range): string {
    if r.first == r.last then ShowAddr(r.first) else ShowAddr(r.first) + "-" + ShowAddr(r.last)
  }

  /** Two addresses with a dash between them and white space anywhere around. */
  function Written(first: Addr, last: Addr, p: string, q: string, r: string, t: string): string {
    p + ShowAddr(first) + q + "-" + r + ShowAddr(last) + t
  }

  lemma WrittenParts(first: Addr, last: Addr, p: string, q: string, r: string, t: string)
    requires AllSpace(p) && AllSpace(q) && AllSpace(r) && AllSpace(t)
    ensures var (a, b) := (ShowAddr(first) + q, r + ShowAddr(last));
            && Strip(Written(first, last, p, q, r, t)) == a + "-" + b
            && Strip(a) == ShowAddr(first) && Strip(b) == ShowAddr(last)
            && Find(a + "-" + b, '-', 0) == Some(|a|)
  {
    hide ShowAddr, Strip, Find;
    ShowAddrChars(first);
    ShowAddrChars(last);
    var (a, b) := (ShowAddr(first) + q, r + ShowAddr(last));
    var s := a + "-" + b;
    assert s[0] == ShowAddr(first)[0];
    assert s[|s| - 1] == ShowAddr(last)[|ShowAddr(last)| - 1];
    assert Written(first, last, p, q, r, t) == p + s + t;
    StripPadded(p, s, t);
    assert [] + ShowAddr(first) + q == a && r + ShowAddr(last) + [] == b;
    StripPadded([], ShowAddr(first), q);
    StripPadded(r, ShowAddr(last), []);
    assert s[|a|] == '-';
    assert forall i :: 0 <= i < |a| ==> s[i] == a[i] && a[i] != '-';
  }

  /** A range as it is written reads as that range, unless it ends before it starts. */
  lemma WrittenRangeReads(first: Addr, last: Addr, p: string, q: string, r: string, t: string)
    requires AllSpace(p) && AllSpace(q) && AllSpace(r) && AllSpace(t)
    ensures ParseRange(Written(first, last, p, q, r, t)) == if first <= last then Some(Range(first, last)) else None
    ensures ParseRange(p + ShowAddr(first) + q) == Some(Range(first, first))
  {
    hide ShowAddr, ParseAddr, Strip, Find, Written;
    WrittenParts(first, last, p, q, r, t);
    ParseShow(first);
    ParseShow(last);
    ShowAddrChars(first);
    ShowAddrChars(last);
    var (a, b) := (ShowAddr(first) + q, r + ShowAddr(last));
    assert (a + "-" + b)[..|a|] == a && (a + "-" + b)[|a| + 1..] == b;
    StripPadded(p, ShowAddr(first), q);
    NoDash(ShowAddr(first));
    assert ShowAddr(first)[..|ShowAddr(first)|] == ShowAddr(first);
  }

  lemma NoDash(s: string)
    requires forall i :: 0 <= i < |s| ==> s[i] != '-'
    ensures Find(s, '-', 0) == None
  {
  }

  /** What messages show of a range reads as that range. */
  lemma ShownRangeReads(r: Range)
    requires r.first <= r.last
    ensures ParseRange(ShowRange(r)) == Some(r) && (r.first == r.last ==> ShowRange(r) == ShowAddr(r.first))
  {
    hide ShowAddr, ParseRange;
    WrittenRangeReads(r.first, r.last, "", "", "", "");
    assert "" + ShowAddr(r.first) + "" == ShowAddr(r.first);
    assert Written(r.first, r.last, "", "", "", "") == ShowAddr(r.first) + "-" + ShowAddr(r.last);
  }

  // --- a catalog entry ----------------------------------------------------------------------

  /** A network as the admin enters it. `cidr` is what IPv4Network makes of its text. */
  datatype Fields = Fields(cidr: Option<Cidr>, gateway: string, dns: seq<string>, addressing: seq<string>,
                           staticPools: seq<string>, dhcp: seq<string>, reserved: seq<string>)

  datatype Fault = CidrFault | GatewayFault | DnsFault | StaticPoolsFault | DhcpFault | ReservedFault | AddressingFault

  /** The gateway given, or else the network's first address; None when that isn't an address. */
  function GatewayOf(gateway: string, cidr: Cidr): Option<Addr> {
    if gateway != "" then ParseAddr(gateway)
    else if cidr.Network() + 1 < 0x1_0000_0000 then Some(cidr.Network() + 1)
    else None
  }

  predicate AllInside(ranges: seq<Range>, cidr: Cidr) {
    forall i :: 0 <= i < |ranges| ==> cidr.Has(ranges[i].first) && cidr.Has(ranges[i].last)
  }

  predicate SomeOverlap(pools: seq<Range>, ranges: seq<Range>) {
    exists i, j :: 0 <= i < |pools| && 0 <= j < |ranges| && pools[i].Overlaps(ranges[j])
  }

  predicate Modes(addressing: seq<string>) {
    forall i :: 0 <= i < |addressing| ==> addressing[i] == "static" || addressing[i] == "dhcp"
  }

  predicate AllAddresses(texts: seq<string>) {
    forall i :: 0 <= i < |texts| ==> ParseAddr(texts[i]).Some?
  }

  /** `validate_network`: the field at fault, or None. `others` are the other entries' names and blocks. */
  function Validate(f: Fields, name: string, others: seq<(string, Cidr)>): Option<Fault> {
    if f.cidr == None then Some(CidrFault)
    else
      var cidr := f.cidr.value;
      var gateway := GatewayOf(f.gateway, cidr);
      if gateway == None || !cidr.Has(gateway.value) then Some(GatewayFault)
      else if !AllAddresses(f.dns) then Some(DnsFault)
      else
        var (pools, dhcp, reserved) := (Ranges(f.staticPools), Ranges(f.dhcp), Ranges(f.reserved));
        if pools == None then Some(StaticPoolsFault)
        else if dhcp == None then Some(DhcpFault)
        else if reserved == None then Some(ReservedFault)
        else if f.addressing == [] || !Modes(f.addressing) then Some(AddressingFault)
        else if "static" in f.addressing && pools.value == [] then Some(StaticPoolsFault)
        else if !AllInside(pools.value, cidr) then Some(StaticPoolsFault)
        else if !AllInside(dhcp.value, cidr) then Some(DhcpFault)
        else if !AllInside(reserved.value, cidr) then Some(ReservedFault)
        else if SomeOverlap(pools.value, dhcp.value) || SomeOverlap(pools.value, reserved.value)
                || InAny(pools.value, gateway.value) then Some(StaticPoolsFault)
        else if exists i :: 0 <= i < |others| && others[i].0 != name && cidr.Overlaps(others[i].1) then Some(CidrFault)
        else None
  }

  /** The check on a host's slice of a network's pools: each of its ranges is inside one pool. */
  predicate SliceAllowed(slice: seq<string>, f: Fields) {
    var (s, pools) := (Ranges(slice), Ranges(f.staticPools));
    s.Some? && pools.Some? && InsideSome(s.value, pools.value)
  }

  /** Each of the slice's ranges is inside one pool. */
  predicate InsideSome(slice: seq<Range>, pools: seq<Range>) {
    forall i :: 0 <= i < |slice| ==> exists j :: 0 <= j < |pools| && slice[i].Inside(pools[j])
  }

  // --- the addresses to hand out ------------------------------------------------------------

  datatype Rules = Rules(cidr: Cidr, gateway: Addr, pools: seq<Range>, blocked: seq<Range>)

  /** What `_candidates` reads from a stored entry and a host's slice; None when one doesn't parse. */
  function RulesOf(f: Fields, slice: seq<string>): Option<Rules> {
    if f.cidr == None then None
    else
      var gateway := GatewayOf(f.gateway, f.cidr.value);
      var pools := Ranges(if slice != [] then slice else f.staticPools);
      var (dhcp, reserved) := (Ranges(f.dhcp), Ranges(f.reserved));
      if gateway == None || pools == None || dhcp == None || reserved == None then None
      else Some(Rules(f.cidr.value, gateway.value, pools.value, dhcp.value + reserved.value))
  }

  predicate Eligible(r: Rules, a: Addr) {
    a != r.cidr.Network() && a != r.cidr.Broadcast() && a != r.gateway && !InAny(r.blocked, a)
  }

  function FromPool(r: Rules, lo: int, hi: Addr): (s: seq<Addr>)
    requires 0 <= lo
    decreases hi - lo + 1
  {
    if lo > hi then [] else (if Eligible(r, lo) then [lo] else []) + FromPool(r, lo + 1, hi)
  }

  function FromPools(r: Rules, k: nat): seq<Addr>
    requires k <= |r.pools|
    decreases |r.pools| - k
  {
    if k == |r.pools| then [] else FromPool(r, r.pools[k].first, r.pools[k].last) + FromPools(r, k + 1)
  }

  function Candidates(r: Rules): seq<Addr> {
    FromPools(r, 0)
  }

  /** `_candidates`: the generator's loops, collecting what it yields. */
  method ListCandidates(r: Rules) returns (out: seq<Addr>)
    ensures out == Candidates(r)
  {
    hide Eligible, FromPool, FromPools;
    out := [];
    AllFromPools(r);
    for k := 0 to |r.pools|
      invariant out + FromPools(r, k) == Candidates(r)
    {
      NextPool(r, k);
      var one := ListPool(r, r.pools[k]);
      Assoc(out, one, FromPools(r, k + 1));
      out := out + one;
    }
  }

  method ListPool(r: Rules, pool: Range) returns (out: seq<Addr>)
    ensures out == FromPool(r, pool.first, pool.last)
  {
    hide Eligible;
    out := [];
    var i: int := pool.first;
    while i <= pool.last
      invariant pool.first <= i && out + FromPool(r, i, pool.last) == FromPool(r, pool.first, pool.last)
      decreases pool.last - i + 1
    {
      if Eligible(r, i) {
        Assoc(out, [i], FromPool(r, i + 1, pool.last));
        out := out + [i];
      }
      i := i + 1;
    }
  }

  lemma AllFromPools(r: Rules)
    ensures [] + FromPools(r, 0) == Candidates(r) && FromPools(r, |r.pools|) == []
  {
  }

  lemma NextPool(r: Rules, k: nat)
    requires k < |r.pools|
    ensures FromPools(r, k) == FromPool(r, r.pools[k].first, r.pools[k].last) + FromPools(r, k + 1)
  {
  }

  // --- which addresses those are ------------------------------------------------------------

  lemma {:induction false} InFromPool(r: Rules, lo: int, hi: Addr, a: Addr)
    requires 0 <= lo
    ensures a in FromPool(r, lo, hi) <==> lo <= a <= hi && Eligible(r, a)
    decreases hi - lo + 1
  {
    hide Eligible;
    if lo <= hi {
      InFromPool(r, lo + 1, hi, a);
    }
  }

  lemma {:induction false} InFromPools(r: Rules, k: nat, a: Addr)
    requires k <= |r.pools|
    ensures a in FromPools(r, k) <==> Eligible(r, a) && exists i :: k <= i < |r.pools| && r.pools[i].Has(a)
    decreases |r.pools| - k
  {
    hide Eligible, FromPool;
    if k < |r.pools| {
      InFromPool(r, r.pools[k].first, r.pools[k].last, a);
      InFromPools(r, k + 1, a);
    }
  }

  /** Exactly the eligible addresses of the pools are handed out. */
  lemma CandidatesAre(r: Rules, a: Addr)
    ensures a in Candidates(r) <==> InAny(r.pools, a) && Eligible(r, a)
  {
    InFromPools(r, 0, a);
  }

  lemma ValidatedFacts(f: Fields, name: string, others: seq<(string, Cidr)>)
    requires Validate(f, name, others) == None
    ensures f.cidr.Some? && GatewayOf(f.gateway, f.cidr.value).Some?
    ensures f.cidr.value.Has(GatewayOf(f.gateway, f.cidr.value).value)
    ensures AllAddresses(f.dns) && f.addressing != [] && Modes(f.addressing)
    ensures Ranges(f.staticPools).Some? && Ranges(f.dhcp).Some? && Ranges(f.reserved).Some?
    ensures var (cidr, pools, dhcp, reserved) :=
              (f.cidr.value, Ranges(f.staticPools).value, Ranges(f.dhcp).value, Ranges(f.reserved).value);
            && AllInside(pools, cidr) && AllInside(dhcp, cidr) && AllInside(reserved, cidr)
            && !SomeOverlap(pools, dhcp) && !SomeOverlap(pools, reserved)
            && !InAny(pools, GatewayOf(f.gateway, cidr).value) && ("static" in f.addressing ==> pools != [])
  {
    hide Ranges, GatewayOf, Modes, AllAddresses, AllInside, SomeOverlap, InAny;
  }

  // --- what an accepted entry is ------------------------------------------------------------

  /** An entry's gateway: the address written there, or the block's first after the network's own. */
  predicate IsGateway(f: Fields, a: Addr) {
    if f.gateway != "" then f.gateway == ShowAddr(a) else f.cidr.Some? && a == f.cidr.value.Network() + 1
  }

  lemma GatewayIs(f: Fields, a: Addr)
    requires f.cidr.Some?
    ensures GatewayOf(f.gateway, f.cidr.value) == Some(a) <==> IsGateway(f, a)
  {
    hide ShowAddr, ParseAddr;
    ParseShow(a);
    if f.gateway != "" && ParseAddr(f.gateway) == Some(a) {
      ShowParse(f.gateway);
    }
  }

  /** Leaving the gateway out is writing the first address; a block without one is refused. */
  lemma LeftOutGateway(f: Fields, name: string, others: seq<(string, Cidr)>, slice: seq<string>)
    requires f.gateway == "" && f.cidr.Some?
    ensures var first := f.cidr.value.Network() + 1;
            if first < 0x1_0000_0000 then
              var g := f.(gateway := ShowAddr(first));
              Validate(f, name, others) == Validate(g, name, others) && RulesOf(f, slice) == RulesOf(g, slice)
            else Validate(f, name, others) == Some(GatewayFault) && RulesOf(f, slice) == None
  {
    hide ShowAddr, Ranges, Modes, AllAddresses, AllInside, SomeOverlap, InAny;
    var first := f.cidr.value.Network() + 1;
    if first < 0x1_0000_0000 {
      GatewayIs(f.(gateway := ShowAddr(first)), first);
      ShowAddrChars(first);
    }
  }

  ghost predicate IsAddressText(s: string) {
    exists a: Addr :: s == ShowAddr(a)
  }

  ghost predicate AddressTexts(texts: seq<string>) {
    forall i :: 0 <= i < |texts| ==> IsAddressText(texts[i])
  }

  lemma AddressTextsAre(texts: seq<string>)
    ensures AllAddresses(texts) <==> AddressTexts(texts)
  {
    hide ParseAddr, IsAddressText;
    forall i | 0 <= i < |texts| ensures ParseAddr(texts[i]).Some? <==> IsAddressText(texts[i]) {
      AddressTextIs(texts[i]);
    }
  }

  lemma AddressTextIs(s: string)
    ensures ParseAddr(s).Some? <==> IsAddressText(s)
  {
    hide ParseAddr, ShowAddr;
    if ParseAddr(s).Some? {
      ShowParse(s);
    }
    if a: Addr :| s == ShowAddr(a) {
      ParseShow(a);
    }
  }

  /** The ranges' texts all parse. */
  predicate RangesParse(f: Fields) {
    Ranges(f.staticPools).Some? && Ranges(f.dhcp).Some? && Ranges(f.reserved).Some?
  }

  /** Where the addresses are, one by one: all of the block, and none of a pool's also DHCP's or reserved. */
  ghost predicate RangesFit(cidr: Cidr, pools: seq<Range>, dhcp: seq<Range>, reserved: seq<Range>) {
    forall a: Addr ::
      && (InAny(pools, a) || InAny(dhcp, a) || InAny(reserved, a) ==> cidr.Has(a))
      && (InAny(pools, a) ==> !InAny(dhcp, a) && !InAny(reserved, a))
  }

  ghost predicate GatewayFits(f: Fields, pools: seq<Range>) {
    exists g: Addr :: IsGateway(f, g) && f.cidr.Some? && f.cidr.value.Has(g) && !InAny(pools, g)
  }

  predicate Nonempty(ranges: seq<Range>) {
    forall i :: 0 <= i < |ranges| ==> ranges[i].first <= ranges[i].last
  }

  lemma InsideIs(ranges: seq<Range>, cidr: Cidr)
    requires Nonempty(ranges)
    ensures AllInside(ranges, cidr) <==> forall a: Addr :: InAny(ranges, a) ==> cidr.Has(a)
  {
    if forall a: Addr :: InAny(ranges, a) ==> cidr.Has(a) {
      forall i | 0 <= i < |ranges| ensures cidr.Has(ranges[i].first) && cidr.Has(ranges[i].last) {
        assert ranges[i].Has(ranges[i].first) && ranges[i].Has(ranges[i].last);
      }
    }
  }

  lemma OverlapIs(pools: seq<Range>, ranges: seq<Range>)
    requires Nonempty(pools) && Nonempty(ranges)
    ensures SomeOverlap(pools, ranges) <==> exists a: Addr :: InAny(pools, a) && InAny(ranges, a)
  {
    if i, j :| 0 <= i < |pools| && 0 <= j < |ranges| && pools[i].Overlaps(ranges[j]) {
      var a: Addr := if pools[i].first < ranges[j].first then ranges[j].first else pools[i].first;
      assert pools[i].Has(a) && ranges[j].Has(a);
      assert InAny(pools, a) && InAny(ranges, a);
    }
    if a: Addr :| InAny(pools, a) && InAny(ranges, a) {
      var i :| 0 <= i < |pools| && pools[i].Has(a);
      var j :| 0 <= j < |ranges| && ranges[j].Has(a);
      assert pools[i].Overlaps(ranges[j]);
    }
  }

  lemma FitIs(cidr: Cidr, pools: seq<Range>, dhcp: seq<Range>, reserved: seq<Range>)
    requires Nonempty(pools) && Nonempty(dhcp) && Nonempty(reserved)
    ensures RangesFit(cidr, pools, dhcp, reserved)
        <==> && AllInside(pools, cidr) && AllInside(dhcp, cidr) && AllInside(reserved, cidr)
             && !SomeOverlap(pools, dhcp) && !SomeOverlap(pools, reserved)
  {
    hide AllInside, SomeOverlap, InAny;
    InsideIs(pools, cidr);
    InsideIs(dhcp, cidr);
    InsideIs(reserved, cidr);
    OverlapIs(pools, dhcp);
    OverlapIs(pools, reserved);
  }

  /** What the comparisons of ends come to, address by address: an entry is accepted exactly when everything in it
      parses, some mode is chosen, static addressing has a pool, every range is in the block, no address of a
      pool is also DHCP's, reserved or the gateway, which is in the block too, and no address is another entry's. */
  lemma AcceptedMeans(f: Fields, name: string, others: seq<(string, Cidr)>)
    ensures Validate(f, name, others) == None
        <==> && f.cidr.Some? && AddressTexts(f.dns) && RangesParse(f)
             && f.addressing != [] && (forall i :: 0 <= i < |f.addressing| ==> f.addressing[i] in {"static", "dhcp"})
             && ("static" in f.addressing ==> f.staticPools != [])
             && RangesFit(f.cidr.value, Ranges(f.staticPools).value, Ranges(f.dhcp).value, Ranges(f.reserved).value)
             && GatewayFits(f, Ranges(f.staticPools).value)
             && forall i, a: Addr :: 0 <= i < |others| && others[i].0 != name ==>
                  !(f.cidr.value.Has(a) && others[i].1.Has(a))
  {
    hide Ranges, AllAddresses, AddressTexts, AllInside, SomeOverlap, InAny, RangesFit, GatewayOf, IsGateway;
    AddressTextsAre(f.dns);
    if f.cidr.Some? && RangesParse(f) {
      FitIs(f.cidr.value, Ranges(f.staticPools).value, Ranges(f.dhcp).value, Ranges(f.reserved).value);
      GatewayFitsIs(f, Ranges(f.staticPools).value);
      OthersApart(f.cidr.value, name, others);
    }
  }

  /** What is wrong with a field when it's the one at fault. */
  ghost predicate IsWrong(f: Fields, fault: Fault, name: string, others: seq<(string, Cidr)>) {
    var (pools, dhcp, reserved) := (Ranges(f.staticPools), Ranges(f.dhcp), Ranges(f.reserved));
    match fault
    case CidrFault =>
      f.cidr == None
      || exists i, a: Addr :: 0 <= i < |others| && others[i].0 != name && f.cidr.value.Has(a) && others[i].1.Has(a)
    case GatewayFault => f.cidr.Some? && forall g: Addr :: IsGateway(f, g) ==> !f.cidr.value.Has(g)
    case DnsFault => !AddressTexts(f.dns)
    case StaticPoolsFault =>
      || pools == None || ("static" in f.addressing && pools.value == [])
      || exists a: Addr :: InAny(pools.value, a) &&
                             (|| (f.cidr.Some? && !f.cidr.value.Has(a)) || IsGateway(f, a)
                              || (dhcp.Some? && InAny(dhcp.value, a)) || (reserved.Some? && InAny(reserved.value, a)))
    case DhcpFault => dhcp == None || exists a: Addr :: InAny(dhcp.value, a) && f.cidr.Some? && !f.cidr.value.Has(a)
    case ReservedFault =>
      reserved == None || exists a: Addr :: InAny(reserved.value, a) && f.cidr.Some? && !f.cidr.value.Has(a)
    case AddressingFault =>
      f.addressing == [] || exists i :: 0 <= i < |f.addressing| && f.addressing[i] !in {"static", "dhcp"}
  }

  /** The field a refusal names is one that something is wrong with. */
  lemma FaultIsReal(f: Fields, name: string, others: seq<(string, Cidr)>)
    requires Validate(f, name, others).Some?
    ensures IsWrong(f, Validate(f, name, others).value, name, others)
  {
    hide Ranges, AllAddresses, AddressTexts, AllInside, SomeOverlap, InAny, GatewayOf, IsGateway;
    AddressTextsAre(f.dns);
    if f.cidr.Some? {
      forall g: Addr ensures GatewayOf(f.gateway, f.cidr.value) == Some(g) <==> IsGateway(f, g) {
        GatewayIs(f, g);
      }
      OthersApart(f.cidr.value, name, others);
      if RangesParse(f) {
        var (pools, dhcp, reserved) := (Ranges(f.staticPools).value, Ranges(f.dhcp).value, Ranges(f.reserved).value);
        InsideIs(pools, f.cidr.value);
        InsideIs(dhcp, f.cidr.value);
        InsideIs(reserved, f.cidr.value);
        OverlapIs(pools, dhcp);
        OverlapIs(pools, reserved);
      }
    }
  }

  lemma GatewayFitsIs(f: Fields, pools: seq<Range>)
    requires f.cidr.Some?
    ensures var g := GatewayOf(f.gateway, f.cidr.value);
            GatewayFits(f, pools) <==> g.Some? && f.cidr.value.Has(g.value) && !InAny(pools, g.value)
  {
    hide GatewayOf, IsGateway;
    forall a: Addr ensures GatewayOf(f.gateway, f.cidr.value) == Some(a) <==> IsGateway(f, a) {
      GatewayIs(f, a);
    }
  }

  lemma OthersApart(cidr: Cidr, name: string, others: seq<(string, Cidr)>)
    ensures (exists i :: 0 <= i < |others| && others[i].0 != name && cidr.Overlaps(others[i].1))
        <==> exists i, a: Addr :: 0 <= i < |others| && others[i].0 != name && cidr.Has(a) && others[i].1.Has(a)
  {
    forall i | 0 <= i < |others|
      ensures cidr.Overlaps(others[i].1) <==> exists a: Addr :: cidr.Has(a) && others[i].1.Has(a)
    {
      OverlapIsSharedAddress(cidr, others[i].1);
    }
  }

  /** The gateway is never handed out, and no pool of an accepted entry holds it. */
  lemma GatewayIsKept(f: Fields, slice: seq<string>, a: Addr)
    requires IsGateway(f, a) && RulesOf(f, slice).Some?
    ensures a !in Candidates(RulesOf(f, slice).value)
  {
    hide Candidates, IsGateway, Ranges, GatewayOf;
    GatewayIs(f, a);
    CandidatesAre(RulesOf(f, slice).value, a);
  }

  lemma PoolsAvoid(pools: seq<Range>, dhcp: seq<Range>, reserved: seq<Range>, a: Addr)
    requires !SomeOverlap(pools, dhcp) && !SomeOverlap(pools, reserved) && InAny(pools, a)
    ensures !InAny(dhcp + reserved, a)
  {
    var i :| 0 <= i < |pools| && pools[i].Has(a);
    forall j | 0 <= j < |dhcp + reserved| ensures !(dhcp + reserved)[j].Has(a) {
      if j < |dhcp| {
        assert !pools[i].Overlaps(dhcp[j]);
      } else {
        assert !pools[i].Overlaps(reserved[j - |dhcp|]);
      }
    }
  }

  /** On a network the admin's entry was accepted for, the pools themselves already avoid the gateway,
      DHCP's and the reserved addresses: all that is skipped is the network and broadcast address. */
  lemma ValidatedCandidates(f: Fields, name: string, others: seq<(string, Cidr)>, a: Addr)
    requires Validate(f, name, others) == None
    ensures RulesOf(f, []).Some?
    ensures var r := RulesOf(f, []).value;
            a in Candidates(r) <==> InAny(r.pools, a) && a != r.cidr.Network() && a != r.cidr.Broadcast()
  {
    hide Ranges, GatewayOf, Candidates, Validate, SomeOverlap, InAny;
    ValidatedFacts(f, name, others);
    var r := RulesOf(f, []).value;
    CandidatesAre(r, a);
    if InAny(r.pools, a) {
      PoolsAvoid(r.pools, Ranges(f.dhcp).value, Ranges(f.reserved).value, a);
    }
  }

  lemma RangesConcat(a: seq<string>, b: seq<string>)
    requires Ranges(a).Some? && Ranges(b).Some?
    ensures Ranges(a + b) == Some(Ranges(a).value + Ranges(b).value)
  {
    hide ParseRange, Ranges;
    forall i | 0 <= i < |a + b|
      ensures ParseRange((a + b)[i]) == Some((Ranges(a).value + Ranges(b).value)[i])
    {
      if i < |a| {
        assert (a + b)[i] == a[i];
      } else {
        assert (a + b)[i] == b[i - |a|];
      }
    }
    assert Ranges(a + b).value == Ranges(a).value + Ranges(b).value;
  }

  lemma TwiceAsGood(pools: seq<Range>, cidr: Cidr, ranges: seq<Range>, a: Addr)
    ensures AllInside(pools + pools, cidr) <==> AllInside(pools, cidr)
    ensures SomeOverlap(pools + pools, ranges) <==> SomeOverlap(pools, ranges)
    ensures InAny(pools + pools, a) <==> InAny(pools, a)
  {
    var twice := pools + pools;
    forall i | 0 <= i < |pools| ensures twice[i] == pools[i] && twice[|pools| + i] == pools[i] {
    }
    assert forall i :: 0 <= i < |twice| ==> twice[i] in pools;
  }

  /** An entry whose pools are all listed twice is accepted like the entry itself. */
  lemma DoubledPoolsAccepted(f: Fields, name: string, others: seq<(string, Cidr)>)
    requires Validate(f, name, others) == None
    ensures Validate(f.(staticPools := f.staticPools + f.staticPools), name, others) == None
  {
    hide Ranges, GatewayOf, Modes, AllAddresses, AllInside, SomeOverlap, InAny;
    ValidatedFacts(f, name, others);
    var pools := Ranges(f.staticPools).value;
    RangesConcat(f.staticPools, f.staticPools);
    TwiceAsGood(pools, f.cidr.value, Ranges(f.dhcp).value, GatewayOf(f.gateway, f.cidr.value).value);
    TwiceAsGood(pools, f.cidr.value, Ranges(f.reserved).value, GatewayOf(f.gateway, f.cidr.value).value);
  }

  /** Its pools then share every address there is to hand out. */
  lemma DoubledPoolsShare(f: Fields, name: string, others: seq<(string, Cidr)>)
    requires Validate(f, name, others) == None && Candidates(RulesOf(f, []).value) != []
    ensures var r := RulesOf(f.(staticPools := f.staticPools + f.staticPools), []);
            r.Some? && !PoolsShareNothing(r.value, 0)
  {
    hide Ranges, GatewayOf, Candidates, Validate, Eligible, InAny, PoolsShareNothing;
    ValidatedFacts(f, name, others);
    RangesConcat(f.staticPools, f.staticPools);
    var r := RulesOf(f, []).value;
    var a := Candidates(r)[0];
    CandidatesAre(r, a);
    TwiceShares(r, a);
  }

  lemma TwiceShares(r: Rules, a: Addr)
    requires InAny(r.pools, a) && Eligible(r, a)
    ensures !PoolsShareNothing(r.(pools := r.pools + r.pools), 0)
  {
    var twice := r.(pools := r.pools + r.pools);
    var i :| 0 <= i < |r.pools| && r.pools[i].Has(a);
    assert twice.pools[i].Has(a) && twice.pools[|r.pools| + i].Has(a) && Eligible(twice, a);
  }

  /** An accepted entry shares no address with any other entry's network. */
  lemma NetworksShareNoAddress(f: Fields, name: string, others: seq<(string, Cidr)>, i: nat, a: Addr)
    requires Validate(f, name, others) == None && i < |others| && others[i].0 != name
    ensures f.cidr.Some? && !(f.cidr.value.Has(a) && others[i].1.Has(a))
  {
    hide Ranges, GatewayOf, Modes, AllAddresses, AllInside, InAny, SomeOverlap;
    OverlapIsSharedAddress(f.cidr.value, others[i].1);
  }

  lemma SliceRules(f: Fields, slice: seq<string>)
    requires SliceAllowed(slice, f) && RulesOf(f, slice).Some? && RulesOf(f, []).Some?
    ensures var (s, r) := (RulesOf(f, slice).value, RulesOf(f, []).value);
            && s.(pools := r.pools) == r
            && (s.pools == r.pools || InsideSome(s.pools, r.pools))
  {
    hide GatewayOf, InsideSome;
  }

  lemma SlicePools(pools: seq<Range>, slice: seq<Range>, a: Addr)
    requires InsideSome(slice, pools) && InAny(slice, a)
    ensures InAny(pools, a)
  {
    var i :| 0 <= i < |slice| && slice[i].Has(a);
    var j :| 0 <= j < |pools| && slice[i].Inside(pools[j]);
    assert pools[j].Has(a);
  }

  /** A host's slice hands out only addresses of the whole pools. */
  lemma SliceCandidates(f: Fields, slice: seq<string>, a: Addr)
    requires SliceAllowed(slice, f) && RulesOf(f, slice).Some? && RulesOf(f, []).Some?
    requires a in Candidates(RulesOf(f, slice).value)
    ensures a in Candidates(RulesOf(f, []).value)
  {
    hide Candidates, RulesOf, SliceAllowed, InAny, InsideSome;
    var (s, r) := (RulesOf(f, slice).value, RulesOf(f, []).value);
    SliceRules(f, slice);
    CandidatesAre(s, a);
    CandidatesAre(r, a);
    if s.pools != r.pools {
      SlicePools(r.pools, s.pools, a);
    }
  }

  lemma {:induction false} FromPoolDistinct(r: Rules, lo: int, hi: Addr)
    requires 0 <= lo
    ensures Distinct(FromPool(r, lo, hi))
    decreases hi - lo + 1
  {
    hide Eligible;
    if lo <= hi {
      FromPoolDistinct(r, lo + 1, hi);
      InFromPool(r, lo + 1, hi, lo);
      DistinctConcat(if Eligible(r, lo) then [lo] else [], FromPool(r, lo + 1, hi));
    }
  }

  /** No eligible address is in two of the pools. */
  ghost predicate PoolsShareNothing(r: Rules, k: nat) {
    forall i, j, a :: k <= i < j < |r.pools| && r.pools[i].Has(a) && r.pools[j].Has(a) ==> !Eligible(r, a)
  }

  lemma NonePools(r: Rules)
    ensures Distinct(FromPools(r, |r.pools|)) && PoolsShareNothing(r, |r.pools|)
  {
  }

  /** An address is handed out twice by one listing exactly when two pools share it. */
  lemma {:induction false} DistinctFromPools(r: Rules, k: nat)
    requires k <= |r.pools|
    ensures Distinct(FromPools(r, k)) <==> PoolsShareNothing(r, k)
    decreases |r.pools| - k
  {
    hide Eligible, FromPool, PoolsShareNothing, Distinct;
    NonePools(r);
    if k < |r.pools| {
      var (pool, one, more) := (r.pools[k], FromPool(r, r.pools[k].first, r.pools[k].last), FromPools(r, k + 1));
      DistinctFromPools(r, k + 1);
      FromPoolDistinct(r, pool.first, pool.last);
      DistinctConcat(one, more);
      forall a: Addr ensures a in one <==> pool.Has(a) && Eligible(r, a) { InFromPool(r, pool.first, pool.last, a); }
      forall a: Addr ensures a in more <==> Eligible(r, a) && exists i :: k + 1 <= i < |r.pools| && r.pools[i].Has(a) {
        InFromPools(r, k + 1, a);
      }
      SharedWithFirst(r, k, one, more);
    }
  }

  lemma SharedWithFirst(r: Rules, k: nat, one: seq<Addr>, more: seq<Addr>)
    requires k < |r.pools|
    requires forall a: Addr :: a in one <==> r.pools[k].Has(a) && Eligible(r, a)
    requires forall a: Addr :: a in more <==> Eligible(r, a) && exists i :: k + 1 <= i < |r.pools| && r.pools[i].Has(a)
    ensures PoolsShareNothing(r, k) <==> PoolsShareNothing(r, k + 1) && forall a :: a in one ==> a !in more
  {
    hide Eligible;
    if PoolsShareNothing(r, k) {
      forall a | a in one && Eligible(r, a) ensures a !in more {
        assert forall j :: k < j < |r.pools| ==> !r.pools[j].Has(a);
      }
    }
  }

  lemma CandidatesDistinct(r: Rules)
    ensures Distinct(Candidates(r)) <==> PoolsShareNothing(r, 0)
  {
    DistinctFromPools(r, 0);
  }
}
