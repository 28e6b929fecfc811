/** The organizational units a directory needs, in the order to create them: the explicit ones and every
    ancestor of each one a group or user refers to, shallowest first. */
module DirectoryObjects {
  import opened Sequences
  import opened Text

  /** p.upper().startswith("OU=") */
  predicate IsOu(p: string) {
    |p| >= 3 && (p[0] == 'O' || p[0] == 'o') && (p[1] == 'U' || p[1] == 'u') && p[2] == '='
  }

  /** What counts as an OU starts with OU=, in any case. */
  lemma OuInAnyCase(p: string)
    ensures IsOu(p) <==> exists rest, o <- {"OU=", "Ou=", "oU=", "ou="} :: p == o + rest
  {
    if IsOu(p) {
      assert p == p[..3] + p[3..] && p[..3] == [p[0], p[1], p[2]];
      assert [p[0], p[1], p[2]] in {"OU=", "Ou=", "oU=", "ou="};
    }
  }

  function Stripped(parts: seq<string>): (r: seq<string>)
    ensures |r| == |parts| && forall i :: 0 <= i < |parts| ==> r[i] == Strip(parts[i])
  {
    seq(|parts|, i requires 0 <= i < |parts| => Strip(parts[i]))
  }

  /** A reference's components, without the spaces around them. */
  function Parts(ref: string): seq<string> {
    Stripped(Split(ref, ','))
  }

  function Ous(parts: seq<string>): seq<string> {
    if parts == [] then [] else if IsOu(parts[0]) then [parts[0]] + Ous(parts[1..]) else Ous(parts[1..])
  }

  function Others(parts: seq<string>): seq<string> {
    if parts == [] then [] else if IsOu(parts[0]) then Others(parts[1..]) else [parts[0]] + Others(parts[1..])
  }

  /** The DN with the last `depth` of the reference's OUs above the rest of it. */
  function DnAt(parts: seq<string>, depth: nat): string
    requires depth <= |Ous(parts)|
  {
    Join(Ous(parts)[|Ous(parts)| - depth..], ',') + "," + Join(Others(parts), ',')
  }

  function DnsTo(parts: seq<string>, depth: nat): seq<string>
    requires depth <= |Ous(parts)|
  {
    if depth == 0 then [] else DnsTo(parts, depth - 1) + [DnAt(parts, depth)]
  }

  /** What one reference adds, in order; an empty one adds nothing. */
  function DnsOf(ref: string): seq<string> {
    if ref == "" then [] else DnsTo(Parts(ref), |Ous(Parts(ref))|)
  }

  function UnitDn(unit: (string, string)): string {
    "OU=" + unit.0 + "," + unit.1
  }

  function UnitDns(units: seq<(string, string)>): seq<string> {
    if units == [] then [] else UnitDns(units[..|units| - 1]) + [UnitDn(units[|units| - 1])]
  }

  function RefDns(refs: seq<string>): seq<string> {
    if refs == [] then [] else RefDns(refs[..|refs| - 1]) + DnsOf(refs[|refs| - 1])
  }

  function Depth(dn: string): nat {
    |Split(dn, ',')|
  }

  /** Puts dn after the ones that are no deeper, as a stable sort does with what comes last. */
  function Insert(sorted: seq<string>, dn: string): seq<string> {
    if sorted == [] then [dn]
    else if Depth(sorted[|sorted| - 1]) <= Depth(dn) then sorted + [dn]
    else Insert(sorted[..|sorted| - 1], dn) + [sorted[|sorted| - 1]]
  }

  /** sorted(dns, key=depth) */
  function ByDepth(dns: seq<string>): seq<string> {
    if dns == [] then [] else Insert(ByDepth(dns[..|dns| - 1]), dns[|dns| - 1])
  }

  function OuDns(units: seq<(string, string)>, refs: seq<string>): seq<string> {
    ByDepth(Once(UnitDns(units) + RefDns(refs)))
  }

  /** `ou_dns`: its loops, and then the sort. */
  method ListOuDns(units: seq<(string, string)>, refs: seq<string>) returns (r: seq<string>)
    ensures r == OuDns(units, refs)
  {
    hide UnitDn, Once, Add, DnsOf, ByDepth;
    var dns: seq<string> := [];
    NoUnits();
    for i := 0 to |units|
      invariant dns == Once(UnitDns(units[..i]))
    {
      assert units[..i + 1][..i] == units[..i];
      OnceMore(UnitDns(units[..i]), UnitDn(units[i]));
      dns := Add(dns, UnitDn(units[i]));
    }
    ghost var explicit := UnitDns(units);
    assert units[..|units|] == units;
    WithNothing(explicit);
    for i := 0 to |refs|
      invariant dns == Once(explicit + RefDns(refs[..i]))
    {
      assert refs[..i + 1][..i] == refs[..i];
      Assoc(explicit, RefDns(refs[..i]), DnsOf(refs[i]));
      dns := AddRef(dns, refs[i], explicit + RefDns(refs[..i]));
    }
    assert refs[..|refs|] == refs;
    return ByDepth(dns);
  }

  /** What one reference adds, one depth at a time. */
  method AddRef(dns: seq<string>, ref: string, ghost before: seq<string>) returns (out: seq<string>)
    requires dns == Once(before)
    ensures out == Once(before + DnsOf(ref))
  {
    hide Once, Add, Ous, DnAt, Parts;
    out := dns;
    WithNothing(before);
    if ref == "" {
      return;
    }
    var parts := Parts(ref);
    for depth := 0 to |Ous(parts)|
      invariant out == Once(before + DnsTo(parts, depth))
    {
      OnceMore(before + DnsTo(parts, depth), DnAt(parts, depth + 1));
      Assoc(before, DnsTo(parts, depth), [DnAt(parts, depth + 1)]);
      out := Add(out, DnAt(parts, depth + 1));
    }
  }

  lemma NoUnits()
    ensures Once(UnitDns([])) == []
  {
  }

  // --- each once, parents first -------------------------------------------------------------

  ghost predicate Sorted(s: seq<string>) {
    forall i, j :: 0 <= i < j < |s| ==> Depth(s[i]) <= Depth(s[j])
  }

  lemma {:induction false} InsertAdds(s: seq<string>, dn: string)
    ensures multiset(Insert(s, dn)) == multiset(s) + multiset{dn}
  {
    hide Depth;
    if s != [] && Depth(s[|s| - 1]) > Depth(dn) {
      InsertAdds(s[..|s| - 1], dn);
      assert s == s[..|s| - 1] + [s[|s| - 1]];
    }
  }

  lemma {:induction false} InsertNoDeeper(s: seq<string>, dn: string, most: nat)
    requires Depth(dn) <= most && forall i :: 0 <= i < |s| ==> Depth(s[i]) <= most
    ensures forall i :: 0 <= i < |Insert(s, dn)| ==> Depth(Insert(s, dn)[i]) <= most
  {
    hide Depth;
    if s != [] {
      InsertNoDeeper(s[..|s| - 1], dn, most);
    }
  }

  lemma {:induction false} InsertSorts(s: seq<string>, dn: string)
    requires Sorted(s)
    ensures Sorted(Insert(s, dn))
  {
    hide Depth;
    if s != [] && Depth(s[|s| - 1]) > Depth(dn) {
      InsertSorts(s[..|s| - 1], dn);
      InsertNoDeeper(s[..|s| - 1], dn, Depth(s[|s| - 1]));
    }
  }

  lemma {:induction false} ByDepthIs(dns: seq<string>)
    ensures Sorted(ByDepth(dns)) && multiset(ByDepth(dns)) == multiset(dns)
  {
    hide Depth, Insert;
    if dns != [] {
      ByDepthIs(dns[..|dns| - 1]);
      InsertAdds(ByDepth(dns[..|dns| - 1]), dns[|dns| - 1]);
      InsertSorts(ByDepth(dns[..|dns| - 1]), dns[|dns| - 1]);
      assert dns == dns[..|dns| - 1] + [dns[|dns| - 1]];
    }
  }

  function AtDepth(s: seq<string>, depth: nat): seq<string> {
    if s == [] then []
    else AtDepth(s[..|s| - 1], depth) + if Depth(s[|s| - 1]) == depth then [s[|s| - 1]] else []
  }

  lemma AtDepthSnoc(s: seq<string>, dn: string, depth: nat)
    ensures AtDepth(s + [dn], depth) == AtDepth(s, depth) + if Depth(dn) == depth then [dn] else []
  {
    hide Depth;
    assert (s + [dn])[..|s|] == s;
  }

  lemma {:induction false} InsertIsLast(s: seq<string>, dn: string, depth: nat)
    ensures AtDepth(Insert(s, dn), depth) == AtDepth(s + [dn], depth)
  {
    hide Depth, AtDepth;
    if s == [] {
      assert [] + [dn] == [dn];
    } else if Depth(s[|s| - 1]) > Depth(dn) {
      var (front, last) := (s[..|s| - 1], s[|s| - 1]);
      assert s == front + [last];
      InsertIsLast(front, dn, depth);
      AtDepthSnoc(Insert(front, dn), last, depth);
      AtDepthSnoc(front, dn, depth);
      AtDepthSnoc(front, last, depth);
      AtDepthSnoc(s, dn, depth);
    }
  }

  /** DNs of one depth stay in the order they came in. */
  lemma {:induction false} ByDepthIsStable(dns: seq<string>, depth: nat)
    ensures AtDepth(ByDepth(dns), depth) == AtDepth(dns, depth)
  {
    hide Depth, Insert, AtDepth;
    if dns != [] {
      var (front, last) := (dns[..|dns| - 1], dns[|dns| - 1]);
      assert dns == front + [last];
      ByDepthIsStable(front, depth);
      InsertIsLast(ByDepth(front), last, depth);
      AtDepthSnoc(ByDepth(front), last, depth);
      AtDepthSnoc(front, last, depth);
    }
  }

  lemma DistinctCounts(s: seq<string>, t: seq<string>)
    requires Distinct(s) && multiset(s) == multiset(t)
    ensures Distinct(t) && forall d :: d in t <==> d in s
  {
    forall d ensures d in t <==> d in s {
      assert d in multiset(t) <==> d in multiset(s);
    }
    forall i, j | 0 <= i < j < |t| ensures t[i] != t[j] {
      if t[i] == t[j] {
        AtLeastTwo(t, i, j);
        AtMostOnce(s, t[i]);
      }
    }
  }

  lemma AtLeastTwo(t: seq<string>, i: nat, j: nat)
    requires i < j < |t| && t[i] == t[j]
    ensures multiset(t)[t[i]] >= 2
  {
    assert t == t[..j] + [t[j]] + t[j + 1..];
    assert t[..j][i] == t[i];
  }

  lemma {:induction false} AtMostOnce(s: seq<string>, d: string)
    requires Distinct(s)
    ensures multiset(s)[d] <= 1
  {
    if s != [] {
      var (front, last) := (s[..|s| - 1], s[|s| - 1]);
      AtMostOnce(front, d);
      assert s == front + [last] && last !in front;
      assert multiset(s) == multiset(front) + multiset{last};
      if d == last {
        assert d !in multiset(front);
      }
    }
  }

  /** The DN one level up: what follows the first comma. */
  function Parent(dn: string): string
    requires Depth(dn) > 1
  {
    Join(Split(dn, ',')[1..], ',')
  }

  lemma ParentIsShallower(dn: string)
    requires Depth(dn) > 1
    ensures Depth(Parent(dn)) == Depth(dn) - 1
    ensures dn == Split(dn, ',')[0] + "," + Parent(dn)
  {
    JoinSplit(dn, ',');
    SplitJoin(Split(dn, ',')[1..], ',');
  }

  /** The list holds exactly the explicit units and what the references add, each once, and a DN's parent,
      when listed at all, comes before it. */
  lemma ListedOnceParentsFirst(units: seq<(string, string)>, refs: seq<string>)
    ensures var r := OuDns(units, refs);
            && Distinct(r)
            && (forall d :: d in r <==> d in UnitDns(units) || d in RefDns(refs))
            && forall i, j :: 0 <= i < |r| && 0 <= j < |r| && Depth(r[i]) > 1 && r[j] == Parent(r[i]) ==> j < i
  {
    hide Once, ByDepth, UnitDns, RefDns, Depth, Parent;
    var (all, once) := (UnitDns(units) + RefDns(refs), Once(UnitDns(units) + RefDns(refs)));
    var r := OuDns(units, refs);
    OnceIs(all);
    ByDepthIs(once);
    DistinctCounts(once, r);
    forall i, j | 0 <= i < |r| && 0 <= j < |r| && Depth(r[i]) > 1 && r[j] == Parent(r[i]) ensures j < i {
      ParentIsShallower(r[i]);
    }
  }

  /** An explicit unit is listed as the OU of its name right under its path, and after its path where that is
      listed too; those of one depth come in the order given, the explicit ones first. */
  lemma UnitUnderPath(units: seq<(string, string)>, refs: seq<string>, i: nat)
    requires i < |units| && ',' !in units[i].0
    ensures var (r, dn) := (OuDns(units, refs), UnitDn(units[i]));
            && dn in r && Depth(dn) > 1 && Split(dn, ',')[0] == "OU=" + units[i].0 && Parent(dn) == units[i].1
            && forall j, k :: 0 <= j < |r| && 0 <= k < |r| && r[j] == units[i].1 && r[k] == dn ==> j < k
    ensures forall depth :: AtDepth(OuDns(units, refs), depth) == AtDepth(Once(UnitDns(units) + RefDns(refs)), depth)
  {
    hide OuDns, UnitDns, RefDns, Once, ByDepth, Split, Join, AtDepth;
    var (name, path, dn) := (units[i].0, units[i].1, UnitDn(units[i]));
    ListedOnceParentsFirst(units, refs);
    InUnitDns(units, i);
    var first := "OU=" + name;
    assert dn == first + [','] + path;
    SplitPart(first, ',', path);
    JoinSplit(path, ',');
    assert Split(dn, ',')[1..] == Split(path, ',');
    forall depth ensures AtDepth(OuDns(units, refs), depth) == AtDepth(Once(UnitDns(units) + RefDns(refs)), depth) {
      ByDepthIsStable(Once(UnitDns(units) + RefDns(refs)), depth);
      assert OuDns(units, refs) == ByDepth(Once(UnitDns(units) + RefDns(refs))) by { OuDnsIs(units, refs); }
    }
  }

  lemma OuDnsIs(units: seq<(string, string)>, refs: seq<string>)
    ensures OuDns(units, refs) == ByDepth(Once(UnitDns(units) + RefDns(refs)))
  {
  }

  lemma {:induction false} InUnitDns(units: seq<(string, string)>, i: nat)
    requires i < |units|
    ensures UnitDn(units[i]) in UnitDns(units)
  {
    hide UnitDn;
    if i < |units| - 1 {
      InUnitDns(units[..|units| - 1], i);
    }
  }

  // --- ancestors ----------------------------------------------------------------------------

  /** The first k components are OUs, and the others aren't. */
  predicate OusFirst(parts: seq<string>, k: nat) {
    k <= |parts| && (forall i :: 0 <= i < k ==> IsOu(parts[i])) && forall i :: k <= i < |parts| ==> !IsOu(parts[i])
  }

  lemma {:induction false} SplitByKind(parts: seq<string>, k: nat)
    requires OusFirst(parts, k)
    ensures Ous(parts) == parts[..k] && Others(parts) == parts[k..]
  {
    if parts != [] {
      SplitByKind(parts[1..], if k == 0 then 0 else k - 1);
      if k > 0 {
        assert parts[..k] == [parts[0]] + parts[1..][..k - 1];
      } else {
        assert parts == [parts[0]] + parts[1..];
      }
    }
  }

  lemma {:induction false} JoinConcat(a: seq<string>, b: seq<string>, c: char)
    requires a != [] && b != []
    ensures Join(a + b, c) == Join(a, c) + [c] + Join(b, c)
  {
    if |a| > 1 {
      JoinConcat(a[1..], b, c);
      assert (a + b)[1..] == a[1..] + b;
    } else {
      assert (a + b)[1..] == b;
    }
  }

  lemma {:induction false} InDnsTo(parts: seq<string>, depth: nat, d: string)
    requires depth <= |Ous(parts)|
    ensures d in DnsTo(parts, depth) <==> exists k :: 1 <= k <= depth && d == DnAt(parts, k)
  {
    hide DnAt, Ous;
    if depth > 0 {
      InDnsTo(parts, depth - 1, d);
    }
  }

  lemma {:induction false} KindsCount(parts: seq<string>)
    ensures |Ous(parts)| + |Others(parts)| == |parts|
    ensures (forall i :: 0 <= i < |Ous(parts)| ==> IsOu(Ous(parts)[i]) && Ous(parts)[i] in parts)
    ensures (forall i :: 0 <= i < |Others(parts)| ==> !IsOu(Others(parts)[i]) && Others(parts)[i] in parts)
  {
    if parts != [] {
      KindsCount(parts[1..]);
      assert parts == [parts[0]] + parts[1..];
    }
  }

  lemma NoCommas(ref: string)
    ensures Parts(ref) != [] && forall i :: 0 <= i < |Parts(ref)| ==> ',' !in Parts(ref)[i]
  {
    JoinSplit(ref, ',');
    forall i | 0 <= i < |Parts(ref)| ensures ',' !in Parts(ref)[i] {
      StripKeepsChars(Split(ref, ',')[i]);
    }
  }

  lemma StripKeepsChars(s: string)
    ensures forall c :: c in Strip(s) ==> c in s
  {
    StripLeftKeepsChars(s);
  }

  lemma {:induction false} StripLeftKeepsChars(s: string)
    ensures forall c :: c in StripLeft(s) ==> c in s
  {
    if s != [] && IsSpace(s[0]) {
      StripLeftKeepsChars(s[1..]);
    }
  }

  /** A reference whose k OUs come first, above at least one other component: each of its OU ancestors, and
      itself, are listed. */
  lemma AncestorsListed(units: seq<(string, string)>, refs: seq<string>, ref: string, k: nat, i: nat)
    requires ref in refs && ref != "" && OusFirst(Parts(ref), k) && i < k < |Parts(ref)|
    ensures Join(Parts(ref)[i..], ',') in OuDns(units, refs)
  {
    hide Parts, OuDns, UnitDns, RefDns, DnsOf, DnsTo, Join;
    var parts := Parts(ref);
    SplitByKind(parts, k);
    assert parts[..k][i..] + parts[k..] == parts[i..];
    JoinConcat(parts[..k][i..], parts[k..], ',');
    var d := Join(parts[i..], ',');
    assert d == DnAt(parts, k - i);
    DnOfRef(refs, ref, d, k - i);
    ListedOnceParentsFirst(units, refs);
  }

  /** What such a reference adds is these and nothing else; one without an OU adds nothing. */
  lemma AddsAncestorsOnly(ref: string, k: nat, d: string)
    requires ref != "" && OusFirst(Parts(ref), k) && k < |Parts(ref)|
    ensures d in DnsOf(ref) <==> exists i :: 0 <= i < k && d == Join(Parts(ref)[i..], ',')
  {
    hide Parts, DnsTo, Join, DnAt;
    var parts := Parts(ref);
    SplitByKind(parts, k);
    InDnsTo(parts, k, d);
    forall i | 0 <= i < k ensures DnAt(parts, k - i) == Join(parts[i..], ',') {
      DnAtIs(parts, k, i);
    }
    if depth :| 1 <= depth <= k && d == DnAt(parts, depth) {
      assert d == Join(parts[k - depth..], ',') by { assert k - (k - depth) == depth; }
    }
  }

  lemma DnAtIs(parts: seq<string>, k: nat, i: nat)
    requires OusFirst(parts, k) && i < k < |parts| && |Ous(parts)| == k
    ensures DnAt(parts, k - i) == Join(parts[i..], ',')
  {
    hide Join;
    SplitByKind(parts, k);
    assert parts[..k][i..] + parts[k..] == parts[i..];
    JoinConcat(parts[..k][i..], parts[k..], ',');
  }

  lemma DnOfRef(refs: seq<string>, ref: string, d: string, depth: nat)
    requires ref in refs && ref != "" && 1 <= depth <= |Ous(Parts(ref))| && d == DnAt(Parts(ref), depth)
    ensures d in RefDns(refs)
  {
    hide DnAt, Ous, Parts;
    InDnsTo(Parts(ref), |Ous(Parts(ref))|, d);
    InRefDns(refs, ref, d);
  }

  lemma {:induction false} InRefDns(refs: seq<string>, ref: string, d: string)
    requires ref in refs && d in DnsOf(ref)
    ensures d in RefDns(refs)
  {
    hide DnsOf;
    var front := refs[..|refs| - 1];
    assert refs == front + [refs[|refs| - 1]];
    if ref in front {
      InRefDns(front, ref, d);
    }
  }

  /** A reference adds its own DN exactly when its OUs come first and something follows them: with a
      component such as CN= before an OU, or nothing but OUs, what is added is not what was referred to. */
  lemma AddsItselfExactly(ref: string)
    requires ref != ""
    ensures Join(Parts(ref), ',') in DnsOf(ref) <==> exists k :: 0 < k < |Parts(ref)| && OusFirst(Parts(ref), k)
  {
    hide Parts, Join, DnsTo;
    var parts := Parts(ref);
    var d := Join(parts, ',');
    NoCommas(ref);
    InDnsTo(parts, |Ous(parts)|, d);
    if k :| 0 < k < |parts| && OusFirst(parts, k) {
      SplitByKind(parts, k);
      assert parts[..k][0..] + parts[k..] == parts;
      JoinConcat(parts[..k][0..], parts[k..], ',');
      assert d == DnAt(parts, k);
    }
    if d in DnsOf(ref) {
      var depth :| 1 <= depth <= |Ous(parts)| && d == DnAt(parts, depth);
      OusComeFirst(parts, depth);
    }
  }

  lemma OusComeFirst(parts: seq<string>, depth: nat)
    requires 1 <= depth <= |Ous(parts)| && Join(parts, ',') == DnAt(parts, depth)
    requires forall i :: 0 <= i < |parts| ==> ',' !in parts[i]
    ensures exists k :: 0 < k < |parts| && OusFirst(parts, k)
  {
    hide Ous, Others, Join;
    KindsCount(parts);
    var (tops, others) := (Ous(parts)[|Ous(parts)| - depth..], Others(parts));
    var rest := if others == [] then [""] else others;
    EmptyJoins();
    JoinConcat(tops, rest, ',');
    forall i | 0 <= i < |tops + rest| ensures ',' !in (tops + rest)[i] {
      if i < |tops| {
        assert tops[i] in parts;
      } else if others != [] {
        assert others[i - |tops|] in parts;
      }
    }
    SplitJoin(parts, ',');
    SplitJoin(tops + rest, ',');
    assert parts == tops + rest;
    if others == [] {
      assert parts[|parts| - 1] == "" && |Ous(parts)| == |parts|;
      AllOus(parts);
    } else {
      assert OusFirst(parts, |tops|);
    }
  }

  lemma EmptyJoins()
    ensures Join([], ',') == Join([""], ',') == ""
  {
  }

  lemma {:induction false} AllOus(parts: seq<string>)
    requires |Ous(parts)| == |parts|
    ensures forall i :: 0 <= i < |parts| ==> IsOu(parts[i])
  {
    if parts != [] {
      KindsCount(parts[1..]);
      AllOus(parts[1..]);
    }
  }

  /** A component before the OU is put behind it: what is created isn't the OU referred to. */
  lemma LeadingComponentMisplaced(cn: string, ou: string, dc: string)
    requires !IsOu(cn) && IsOu(ou) && !IsOu(dc) && ',' !in cn && ',' !in ou && ',' !in dc
    requires Strip(cn) == cn && Strip(ou) == ou && Strip(dc) == dc
    ensures var ref := Join([cn, ou, dc], ',');
            DnsOf(ref) == [Join([ou, cn, dc], ',')] && ref !in DnsOf(ref)
  {
    hide Strip, Split, IsOu, Join, Parts, DnsTo, Ous, Others;
    PartsOfThree(cn, ou, dc);
    OnlyDnOfThree(cn, ou, dc);
    SplitJoin([cn, ou, dc], ',');
    SplitJoin([ou, cn, dc], ',');
    assert [cn, ou, dc][0] != [ou, cn, dc][0];
    EmptySplits();
  }

  lemma EmptySplits()
    ensures Split("", ',') == [""]
  {
  }

  lemma PartsOfThree(cn: string, ou: string, dc: string)
    requires ',' !in cn && ',' !in ou && ',' !in dc
    requires Strip(cn) == cn && Strip(ou) == ou && Strip(dc) == dc
    ensures Parts(Join([cn, ou, dc], ',')) == [cn, ou, dc]
  {
    hide Strip, Split, Join;
    SplitJoin([cn, ou, dc], ',');
  }

  lemma OnlyDnOfThree(cn: string, ou: string, dc: string)
    requires !IsOu(cn) && IsOu(ou) && !IsOu(dc)
    ensures |Ous([cn, ou, dc])| == 1 && DnsTo([cn, ou, dc], 1) == [Join([ou, cn, dc], ',')]
  {
    hide IsOu, Join, Ous, Others;
    KindsOfThree(cn, ou, dc);
    JoinConcat([ou], [cn, dc], ',');
    assert [ou] + [cn, dc] == [ou, cn, dc] && [ou][1 - 1..] == [ou];
    assert DnsTo([cn, ou, dc], 1) == DnsTo([cn, ou, dc], 0) + [DnAt([cn, ou, dc], 1)];
  }

  lemma KindsOfThree(cn: string, ou: string, dc: string)
    requires !IsOu(cn) && IsOu(ou) && !IsOu(dc)
    ensures Ous([cn, ou, dc]) == [ou] && Others([cn, ou, dc]) == [cn, dc]
  {
    hide IsOu;
    var none: seq<string>, one, two := [], [dc], [ou, dc];
    assert one[1..] == none && two[1..] == one && [cn, ou, dc][1..] == two;
    assert Ous(none) == none && Others(none) == none;
    assert Ous(one) == none && Others(one) == one[..1] + Others(none);
    assert Ous(two) == [ou] && Others(two) == one;
  }
}
