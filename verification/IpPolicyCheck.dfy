/** The engine's check of a whole plan against the catalog, before anything is created. */
module IpPolicyCheck {
  import opened Wrappers
  import opened Ipv4
  import opened NetPolicy
  import opened EngineNetworks

  /** A VM of the plan's `hosts` output; "" where a field is absent. */
  datatype Host = Host(network: string, addressingMode: string, ip: string, roles: seq<string>) {
    function Mode(): string {
      if addressingMode == "" then "static" else addressingMode
    }
  }

  datatype Complaint =
    | UnknownNetwork | ModeNotAllowed | NoAddress | Refused(problem: Problem) | SharedWith(other: string) | DcNotStatic

  type Networks = map<string, Network>
  type Hosts = map<string, Host>

  /** The host is one whose address the check records: static, on a known network, with an address. */
  predicate Records(nets: Networks, h: Host) {
    h.network in nets && h.Mode() == "static" && h.ip != ""
  }

  /** The address isn't one: static_problem raises, and the check ends without a verdict. */
  predicate Unreadable(nets: Networks, h: Host) {
    Records(nets, h) && ParseAddr(h.ip) == None
  }

  /** The recorded addresses, and who has each. */
  function Seen(nets: Networks, hosts: Hosts, names: seq<string>): map<string, string>
    requires forall n :: n in names ==> n in hosts
  {
    if names == [] then map[]
    else
      var (front, n) := (names[..|names| - 1], names[|names| - 1]);
      assert n in names && forall x :: x in front ==> x in names;
      if Records(nets, hosts[n]) then Seen(nets, hosts, front)[hosts[n].ip := n] else Seen(nets, hosts, front)
  }

  /** What the check has against one VM, given the addresses recorded before it. */
  function Complaints(nets: Networks, h: Host, seen: map<string, string>): seq<Complaint>
    requires !Unreadable(nets, h)
  {
    var placed :=
      if h.network !in nets then [UnknownNetwork]
      else
        (if h.Mode() !in nets[h.network].addressing then [ModeNotAllowed] else [])
        + if h.Mode() != "static" then []
          else if h.ip == "" then [NoAddress]
          else
            var why := StaticProblem(nets[h.network], ParseAddr(h.ip).value);
            (if why.Some? then [Refused(why.value)] else []) + if h.ip in seen then [SharedWith(seen[h.ip])] else [];
    placed + if h.Mode() != "static" && "domain_controller" in h.roles then [DcNotStatic] else []
  }

  function Tagged(n: string, cs: seq<Complaint>): seq<(string, Complaint)> {
    seq(|cs|, i requires 0 <= i < |cs| => (n, cs[i]))
  }

  /** The complaints about the VMs in `about`, in order. */
  function Report(nets: Networks, hosts: Hosts, names: seq<string>, about: set<string>): seq<(string, Complaint)>
    requires forall n :: n in names ==> n in hosts && !Unreadable(nets, hosts[n])
  {
    if names == [] then []
    else
      var (front, n) := (names[..|names| - 1], names[|names| - 1]);
      assert n in names && forall x :: x in front ==> x in names;
      Report(nets, hosts, front, about)
      + if n in about then Tagged(n, Complaints(nets, hosts[n], Seen(nets, hosts, front))) else []
  }

  /** The check's result: its exit code, or that it stopped on an address it couldn't read. */
  datatype Verdict = Exit(code: nat) | Stopped

  /** `main`'s loop over the VMs, in the order of `names`. */
  method Check(nets: Networks, hosts: Hosts, names: seq<string>, creating: set<string>)
    returns (r: Verdict, errors: seq<(string, Complaint)>, warnings: seq<(string, Complaint)>)
    requires forall n :: n in names ==> n in hosts
    ensures r == Stopped <==> exists n :: n in names && Unreadable(nets, hosts[n])
    ensures r != Stopped ==>
      && errors == Report(nets, hosts, names, creating)
      && warnings == Report(nets, hosts, names, (set n | n in names) - creating)
      && r == Exit(if errors == [] then 0 else 1)
  {
    hide Complaints, Records, Seen, Report;
    errors, warnings := [], [];
    var seen: map<string, string> := map[];
    ghost var existing := (set n | n in names) - creating;
    NoVms(nets, hosts, creating);
    NoVms(nets, hosts, existing);
    for i := 0 to |names|
      invariant forall j :: 0 <= j < i ==> !Unreadable(nets, hosts[names[j]])
      invariant seen == Seen(nets, hosts, names[..i])
      invariant errors == Report(nets, hosts, names[..i], creating)
      invariant warnings == Report(nets, hosts, names[..i], existing)
    {
      var n, h := names[i], hosts[names[i]];
      if Unreadable(nets, h) {
        return Stopped, errors, warnings;
      }
      NextVm(nets, hosts, names, i, creating);
      NextVm(nets, hosts, names, i, existing);
      var problems := Complaints(nets, h, seen);
      if Records(nets, h) {
        seen := seen[h.ip := n];
      }
      if n in creating {
        errors := errors + Tagged(n, problems);
      } else {
        warnings := warnings + Tagged(n, problems);
      }
    }
    assert names[..|names|] == names;
    forall n | n in names ensures !Unreadable(nets, hosts[n]) {
    }
    r := Exit(if errors == [] then 0 else 1);
  }

  lemma NoVms(nets: Networks, hosts: Hosts, about: set<string>)
    ensures Seen(nets, hosts, []) == map[] && Report(nets, hosts, [], about) == []
  {
  }

  lemma NextVm(nets: Networks, hosts: Hosts, names: seq<string>, i: nat, about: set<string>)
    requires i < |names| && forall n :: n in names ==> n in hosts
    requires forall j :: 0 <= j <= i ==> !Unreadable(nets, hosts[names[j]])
    ensures var (n, before) := (names[i], Seen(nets, hosts, names[..i]));
            && Seen(nets, hosts, names[..i + 1])
               == (if Records(nets, hosts[n]) then before[hosts[n].ip := n] else before)
            && Report(nets, hosts, names[..i + 1], about)
               == Report(nets, hosts, names[..i], about)
                  + if n in about then Tagged(n, Complaints(nets, hosts[n], before)) else []
  {
    hide Complaints, Records;
    assert names[..i + 1][..i] == names[..i];
  }

  // --- what the complaints are --------------------------------------------------------------

  /** A VM without an addressing mode is checked as a static one; and the check stops exactly at a static VM on a
      known network whose address is there but is no address's text. */
  lemma AbsentModeIsStatic(nets: Networks, h: Host, seen: map<string, string>)
    requires h.addressingMode == "" && !Unreadable(nets, h)
    ensures var s := h.(addressingMode := "static");
            !Unreadable(nets, s) && Complaints(nets, h, seen) == Complaints(nets, s, seen)
            && (Records(nets, h) <==> Records(nets, s))
  {
  }

  lemma StopsAt(nets: Networks, h: Host)
    ensures Unreadable(nets, h)
        <==> h.network in nets && h.addressingMode in {"", "static"} && h.ip != "" && !IsAddressText(h.ip)
  {
    hide ParseAddr, IsAddressText;
    AddressTextIs(h.ip);
  }

  /** Each complaint about the i-th VM is made exactly when there is that reason for it. */
  ghost predicate Justified(nets: Networks, hosts: Hosts, names: seq<string>, i: nat, c: Complaint)
    requires i < |names| && forall n :: n in names ==> n in hosts
  {
    var h := hosts[names[i]];
    var fixed := h.addressingMode in {"", "static"};
    match c
    case UnknownNetwork => h.network !in nets
    case ModeNotAllowed =>
      h.network in nets && (if fixed then "static" else h.addressingMode) !in nets[h.network].addressing
    case NoAddress => h.network in nets && fixed && h.ip == ""
    case Refused(p) =>
      h.network in nets && fixed
      && exists a: Addr :: ParseAddr(h.ip) == Some(a) && StaticProblem(nets[h.network], a) == Some(p)
    case SharedWith(o) =>
      Records(nets, h)
      && exists j :: 0 <= j < i && names[j] == o && LastWith(nets, hosts, names, j, i, h.ip)
    case DcNotStatic => !fixed && "domain_controller" in h.roles
  }

  /** Of the VMs before the i-th with this address, the j-th is the last. */
  ghost predicate LastWith(nets: Networks, hosts: Hosts, names: seq<string>, j: nat, i: nat, ip: string)
    requires j < i <= |names| && forall n :: n in names ==> n in hosts
  {
    && Records(nets, hosts[names[j]]) && hosts[names[j]].ip == ip
    && forall k :: j < k < i && Records(nets, hosts[names[k]]) ==> hosts[names[k]].ip != ip
  }

  lemma {:induction false} SeenIsLast(nets: Networks, hosts: Hosts, names: seq<string>, i: nat, ip: string, o: string)
    requires i <= |names| && forall n :: n in names ==> n in hosts
    ensures ip in Seen(nets, hosts, names[..i]) && Seen(nets, hosts, names[..i])[ip] == o
        <==> exists j :: 0 <= j < i && names[j] == o && LastWith(nets, hosts, names, j, i, ip)
  {
    hide Records;
    if i > 0 {
      SeenIsLast(nets, hosts, names, i - 1, ip, o);
      assert names[..i][..i - 1] == names[..i - 1];
      if Records(nets, hosts[names[i - 1]]) && hosts[names[i - 1]].ip == ip {
        assert names[i - 1] == o ==> LastWith(nets, hosts, names, i - 1, i, ip);
      } else {
        forall j | 0 <= j < i - 1
          ensures LastWith(nets, hosts, names, j, i - 1, ip) <==> LastWith(nets, hosts, names, j, i, ip)
        {
        }
      }
    }
  }

  lemma ComplaintsAre(nets: Networks, hosts: Hosts, names: seq<string>, i: nat, c: Complaint)
    requires i < |names| && forall n :: n in names ==> n in hosts
    requires !Unreadable(nets, hosts[names[i]])
    ensures c in Complaints(nets, hosts[names[i]], Seen(nets, hosts, names[..i]))
        <==> Justified(nets, hosts, names, i, c)
  {
    hide Seen, ParseAddr, StaticProblem, LastWith;
    EmptyIsNoAddress();
    if c.SharedWith? {
      SeenIsLast(nets, hosts, names, i, hosts[names[i]].ip, c.other);
    }
  }

  // --- what passing means -------------------------------------------------------------------

  /** Said without the loop: what must hold of the i-th VM. */
  ghost predicate Sound(nets: Networks, hosts: Hosts, names: seq<string>, i: nat)
    requires i < |names| && forall n :: n in names ==> n in hosts
  {
    var h := hosts[names[i]];
    && h.network in nets && h.Mode() in nets[h.network].addressing
    && (h.Mode() == "static" ==>
          && ParseAddr(h.ip).Some? && StaticProblem(nets[h.network], ParseAddr(h.ip).value) == None
          && forall j :: 0 <= j < i && Records(nets, hosts[names[j]]) ==> hosts[names[j]].ip != h.ip)
    && ("domain_controller" in h.roles ==> h.Mode() == "static")
  }

  lemma {:induction false} SeenAre(nets: Networks, hosts: Hosts, names: seq<string>, ip: string)
    requires forall n :: n in names ==> n in hosts
    ensures ip in Seen(nets, hosts, names)
        <==> exists j :: 0 <= j < |names| && Records(nets, hosts[names[j]]) && hosts[names[j]].ip == ip
  {
    hide Records;
    if names != [] {
      var front := names[..|names| - 1];
      assert forall x :: x in front ==> x in names;
      SeenAre(nets, hosts, front, ip);
      assert forall j :: 0 <= j < |front| ==> names[j] == front[j];
    }
  }

  lemma NoComplaints(nets: Networks, hosts: Hosts, names: seq<string>, i: nat)
    requires i < |names| && forall n :: n in names ==> n in hosts
    requires !Unreadable(nets, hosts[names[i]])
    ensures Complaints(nets, hosts[names[i]], Seen(nets, hosts, names[..i])) == [] <==> Sound(nets, hosts, names, i)
  {
    hide Seen, ParseAddr, StaticProblem;
    var h := hosts[names[i]];
    SeenAre(nets, hosts, names[..i], h.ip);
    EmptyIsNoAddress();
  }

  lemma {:induction false} ReportEmpty(nets: Networks, hosts: Hosts, names: seq<string>, k: nat, about: set<string>)
    requires k <= |names| && forall n :: n in names ==> n in hosts && !Unreadable(nets, hosts[n])
    ensures Report(nets, hosts, names[..k], about) == []
        <==> forall i :: 0 <= i < k && names[i] in about ==> Sound(nets, hosts, names, i)
  {
    hide Report, Complaints, Sound, Seen;
    if k == 0 {
      NoVms(nets, hosts, about);
    } else {
      ReportEmpty(nets, hosts, names, k - 1, about);
      NextVm(nets, hosts, names, k - 1, about);
      NoComplaints(nets, hosts, names, k - 1);
    }
  }

  /** The check passes a plan exactly when every VM it creates is on a known network that allows its
      mode, has an unobjectionable address no VM before it has if it is static, and is static if it is a
      domain controller. */
  lemma PassesExactly(nets: Networks, hosts: Hosts, names: seq<string>, creating: set<string>)
    requires forall n :: n in names ==> n in hosts && !Unreadable(nets, hosts[n])
    ensures Report(nets, hosts, names, creating) == []
        <==> forall i :: 0 <= i < |names| && names[i] in creating ==> Sound(nets, hosts, names, i)
  {
    hide Report, Sound;
    assert names[..|names|] == names;
    ReportEmpty(nets, hosts, names, |names|, creating);
  }

  /** No two static VMs a passed plan creates have the same address. */
  lemma CreatedDontShare(nets: Networks, hosts: Hosts, names: seq<string>, creating: set<string>, i: nat, j: nat)
    requires forall n :: n in names ==> n in hosts && !Unreadable(nets, hosts[n])
    requires Report(nets, hosts, names, creating) == []
    requires i < j < |names| && names[i] in creating && names[j] in creating
    requires hosts[names[i]].Mode() == "static" && hosts[names[j]].Mode() == "static"
    ensures ParseAddr(hosts[names[i]].ip).Some? && ParseAddr(hosts[names[j]].ip).Some?
    ensures ParseAddr(hosts[names[i]].ip) != ParseAddr(hosts[names[j]].ip)
  {
    hide Report, ParseAddr;
    PassesExactly(nets, hosts, names, creating);
    assert Sound(nets, hosts, names, i) && Sound(nets, hosts, names, j);
    EmptyIsNoAddress();
    ShowParse(hosts[names[i]].ip);
    ShowParse(hosts[names[j]].ip);
  }
}
