/** The network catalog as admins change it, and the engine's reading of the part one host carries. */
module NetworkCatalog {
  import opened Wrappers
  import opened Ipv4
  import opened NetPolicy
  import opened EngineNetworks

  type Catalog = map<string, Fields>

  // --- changing it --------------------------------------------------------------------------

  /** The entries' names and blocks, in any order. */
  ghost predicate Lists(others: seq<(string, Cidr)>, c: Catalog) {
    && (forall i :: 0 <= i < |others| ==> others[i].0 in c && c[others[i].0].cidr == Some(others[i].1))
    && forall n :: n in c && c[n].cidr.Some? ==> (n, c[n].cidr.value) in others
  }

  /** What an admin asks for; `others` are the entries as the check reads them, and `held` says whether
      addresses are allocated on the network. */
  datatype Change =
    | Create(name: string, fields: Fields, others: seq<(string, Cidr)>)
    | Update(name: string, renamed: string, fields: Fields, others: seq<(string, Cidr)>, held: bool)
    | Delete(name: string, held: bool)

  /** The catalog after a change; a refused one leaves it as it is, and so does a taken name. */
  function Applied(c: Catalog, ch: Change): Catalog {
    match ch
    case Create(name, f, others) => if name in c || Validate(f, name, others) != None then c else c[name := f]
    case Update(name, renamed, f, others, held) =>
      if name !in c || Validate(f, renamed, others) != None || (renamed != name && (held || renamed in c)) then c
      else (c - {name})[renamed := f]
    case Delete(name, held) => if held then c else c - {name}
  }

  /** What each change does to what is read under a name: an accepted entry is what its name gives, a rename takes
      the old name away, a network with addresses allocated on it is neither renamed nor deleted, one without is
      deleted when asked, and no other name is touched. */
  lemma AppliedReads(c: Catalog, ch: Change, n: string)
    ensures var c' := Applied(c, ch);
            var touched := if ch.Update? then {ch.name, ch.renamed} else {ch.name};
            && (n !in touched ==> (n in c' <==> n in c) && (n in c ==> c'[n] == c[n]))
            && (ch.Create? && ch.name !in c && Validate(ch.fields, ch.name, ch.others) == None ==>
                  ch.name in c' && c'[ch.name] == ch.fields)
            && (ch.Create? && ch.name in c ==> c' == c)
            && (ch.Update? && ch.name !in c ==> c' == c)
            && (ch.Update? && ch.name in c && c' != c ==>
                  ch.renamed in c' && c'[ch.renamed] == ch.fields && (ch.renamed != ch.name ==> ch.name !in c'))
            && (ch.Update? && ch.name in c && ch.renamed == ch.name && Validate(ch.fields, ch.name, ch.others) == None
                ==> c'[ch.name] == ch.fields)
            && (ch.Delete? ==> (ch.name in c' <==> ch.held && ch.name in c))
            && (!ch.Create? && ch.held && ch.name in c ==> ch.name in c')
  {
    hide Validate;
  }

  ghost predicate Reads(ch: Change, c: Catalog) {
    !ch.Delete? ==> Lists(ch.others, c)
  }

  /** Each change's check read the catalog as it was then. */
  ghost predicate Legal(changes: seq<Change>) {
    changes != [] ==> Legal(changes[..|changes| - 1]) && Reads(changes[|changes| - 1], After(changes[..|changes| - 1]))
  }

  function After(changes: seq<Change>): Catalog {
    if changes == [] then map[] else Applied(After(changes[..|changes| - 1]), changes[|changes| - 1])
  }

  /** No change is about this name. */
  predicate LeavesAlone(changes: seq<Change>, n: string) {
    forall i :: 0 <= i < |changes| ==> changes[i].name != n && (changes[i].Update? ==> changes[i].renamed != n)
  }

  /** Over every run: an entry that was accepted is what its name gives, until a change is about that name. */
  lemma {:induction false} AcceptedEntryStays(changes: seq<Change>, ch: Change, more: seq<Change>)
    requires ch.Create? && ch.name !in After(changes) && Validate(ch.fields, ch.name, ch.others) == None
    requires LeavesAlone(more, ch.name)
    ensures var c := After(changes + [ch] + more); ch.name in c && c[ch.name] == ch.fields
  {
    hide Applied, Validate;
    if more == [] {
      assert changes + [ch] + more == changes + [ch] && (changes + [ch])[..|changes|] == changes;
      AppliedReads(After(changes), ch, ch.name);
    } else {
      var (front, last) := (more[..|more| - 1], more[|more| - 1]);
      AcceptedEntryStays(changes, ch, front);
      var all := changes + [ch] + more;
      assert all[..|all| - 1] == changes + [ch] + front && all[|all| - 1] == last;
      AppliedReads(After(changes + [ch] + front), last, ch.name);
    }
  }

  /** Each entry is consistent by itself, and no two share an address. */
  ghost predicate Consistent(c: Catalog) {
    && (forall n :: n in c ==> Validate(c[n], n, []) == None)
    && forall m, n :: m in c && n in c && m != n ==> Apart(c[m], c[n])
  }

  predicate Apart(f: Fields, g: Fields) {
    f.cidr.Some? && g.cidr.Some? ==> !f.cidr.value.Overlaps(g.cidr.value)
  }

  lemma ValidatedAlone(f: Fields, name: string, others: seq<(string, Cidr)>)
    requires Validate(f, name, others) == None
    ensures Validate(f, name, []) == None && f.cidr.Some?
    ensures forall i :: 0 <= i < |others| && others[i].0 != name ==> !f.cidr.value.Overlaps(others[i].1)
  {
    hide GatewayOf, Ranges, Modes, AllAddresses, AllInside, SomeOverlap, InAny;
  }

  lemma ApartFromOthers(c: Catalog, f: Fields, name: string, others: seq<(string, Cidr)>, n: string)
    requires Lists(others, c) && Validate(f, name, others) == None && n in c && n != name
    ensures Apart(f, c[n]) && Apart(c[n], f)
  {
    hide Validate;
    ValidatedAlone(f, name, others);
    if c[n].cidr.Some? {
      assert (n, c[n].cidr.value) in others;
    }
  }

  lemma ChangeKeeps(c: Catalog, ch: Change)
    requires Consistent(c) && Reads(ch, c)
    ensures Consistent(Applied(c, ch))
  {
    hide Validate, Apart;
    var c' := Applied(c, ch);
    if !ch.Delete? && c' != c {
      var name := if ch.Create? then ch.name else ch.renamed;
      ValidatedAlone(ch.fields, name, ch.others);
      forall n | n in c && n != name ensures Apart(ch.fields, c[n]) && Apart(c[n], ch.fields) {
        ApartFromOthers(c, ch.fields, name, ch.others, n);
      }
    }
  }

  /** Whatever admins create, change and delete, accepted or not: every entry is consistent, and no two
      networks share an address. */
  lemma {:induction false} EveryCatalog(changes: seq<Change>)
    requires Legal(changes)
    ensures Consistent(After(changes))
  {
    hide Consistent, Applied, Reads;
    if changes == [] {
      NothingListed();
    } else {
      EveryCatalog(changes[..|changes| - 1]);
      ChangeKeeps(After(changes[..|changes| - 1]), changes[|changes| - 1]);
    }
  }

  lemma NothingListed()
    ensures Consistent(map[])
  {
  }

  lemma AloneAndApart(f: Fields, name: string, others: seq<(string, Cidr)>)
    requires Validate(f, name, []) == None && f.cidr.Some?
    requires forall i :: 0 <= i < |others| && others[i].0 != name ==> !f.cidr.value.Overlaps(others[i].1)
    ensures Validate(f, name, others) == None
  {
    hide GatewayOf, Ranges, Modes, AllAddresses, AllInside, SomeOverlap, InAny;
  }

  /** The check accepts an entry exactly when it is consistent by itself and shares no address with an entry of
      another name. */
  lemma AcceptedExactly(c: Catalog, f: Fields, name: string, others: seq<(string, Cidr)>)
    requires Lists(others, c)
    ensures Validate(f, name, others) == None
        <==> Validate(f, name, []) == None && forall n :: n in c && n != name ==> Apart(f, c[n])
  {
    hide Validate;
    if Validate(f, name, others) == None {
      ValidatedAlone(f, name, others);
      forall n | n in c && n != name ensures Apart(f, c[n]) {
        ApartFromOthers(c, f, name, others, n);
      }
    }
    if Validate(f, name, []) == None && forall n :: n in c && n != name ==> Apart(f, c[n]) {
      ValidatedAlone(f, name, []);
      forall i | 0 <= i < |others| && others[i].0 != name ensures !f.cidr.value.Overlaps(others[i].1) {
        assert Apart(f, c[others[i].0]);
      }
      AloneAndApart(f, name, others);
    }
  }

  /** A network is renamed exactly when no address is allocated on it, and the new entry is consistent and shares
      no address with any entry of the catalog, its own included: under a new name its own entry counts as
      another network. */
  lemma RenamesExactly(c: Catalog, ch: Change)
    requires Reads(ch, c) && ch.Update? && ch.name in c && ch.renamed !in c
    ensures Applied(c, ch) != c
        <==> && !ch.held && Validate(ch.fields, ch.renamed, []) == None
             && forall n :: n in c ==> Apart(ch.fields, c[n])
  {
    hide Validate, Apart;
    AcceptedExactly(c, ch.fields, ch.renamed, ch.others);
    assert ch.renamed in (c - {ch.name})[ch.renamed := ch.fields];
  }

  lemma KeepingTheBlockCantRename(c: Catalog, name: string, renamed: string, others: seq<(string, Cidr)>, held: bool)
    requires Consistent(c) && Lists(others, c) && name in c && renamed != name
    ensures Applied(c, Update(name, renamed, c[name], others, held)) == c
  {
    hide Validate;
    if renamed !in c {
      ValidatedAlone(c[name], name, []);
      BlockInRange(c[name].cidr.value);
      OverlapIsSharedAddress(c[name].cidr.value, c[name].cidr.value);
      RenamesExactly(c, Update(name, renamed, c[name], others, held));
      assert !Apart(c[name], c[name]);
    }
  }

  // --- the engine's reading -----------------------------------------------------------------

  /** `load` of an environment's `networks`; None is an error. The older single network isn't modelled. */
  function Load(raw: map<string, Fields>, default: string): Option<map<string, Network>> {
    if raw == map[] || exists n :: n in raw && MakeNetwork(raw[n]) == None then None
    else if exists m, n :: m in raw && n in raw && m != n && !Apart(raw[m], raw[n]) then None
    else if default != "" && default !in raw then None
    else Some(map n | n in raw :: MakeNetwork(raw[n]).value)
  }

  /** The engine loads networks exactly when there is one, it takes each, no address is in two, and the default is
      one of them. */
  lemma LoadsExactly(raw: map<string, Fields>, default: string)
    ensures Load(raw, default).Some?
        <==> && (exists n :: n in raw) && (forall n :: n in raw ==> MakeNetwork(raw[n]).Some?)
             && (forall m, n, a: Addr :: m in raw && n in raw && m != n && raw[m].cidr.Some? && raw[n].cidr.Some? ==>
                   !(raw[m].cidr.value.Has(a) && raw[n].cidr.value.Has(a)))
             && (default != "" ==> default in raw)
    ensures Load(raw, default).Some? ==>
      var nets := Load(raw, default).value;
      nets.Keys == raw.Keys && forall n :: n in raw ==> Some(nets[n]) == MakeNetwork(raw[n])
  {
    hide MakeNetwork;
    assert raw == map[] <==> forall n :: n !in raw;
    forall m, n | m in raw && n in raw && raw[m].cidr.Some? && raw[n].cidr.Some?
      ensures Apart(raw[m], raw[n]) <==> forall a: Addr :: !(raw[m].cidr.value.Has(a) && raw[n].cidr.value.Has(a))
    {
      OverlapIsSharedAddress(raw[m].cidr.value, raw[n].cidr.value);
    }
  }

  /** The catalog the app writes for a host, from the networks attached to it and its slices of them. */
  function HostCatalog(c: Catalog, slices: map<string, seq<string>>): map<string, Fields>
    requires slices.Keys <= c.Keys
  {
    map n | n in slices :: ForHost(c[n], slices[n])
  }

  /** Each attached network is in the catalog, and each slice one the app accepted. */
  ghost predicate Attached(c: Catalog, slices: map<string, seq<string>>) {
    slices.Keys <= c.Keys && forall n :: n in slices ==> SliceAllowed(slices[n], c[n])
  }

  /** What the app writes for a host from a consistent catalog, the engine loads, exactly when no range in it
      has a trailing dash; and each network it loads is the one made of that network's fields. */
  lemma LoadAccepts(c: Catalog, slices: map<string, seq<string>>, default: string)
    requires Consistent(c) && Attached(c, slices) && slices != map[] && (default == "" || default in slices)
    ensures Load(HostCatalog(c, slices), default).Some? <==> forall n :: n in slices ==> NoTrailingDash(c[n], slices[n])
    ensures Load(HostCatalog(c, slices), default).Some? ==>
      var nets := Load(HostCatalog(c, slices), default).value;
      nets.Keys == slices.Keys
      && forall n :: n in slices ==> Some(nets[n]) == MakeNetwork(ForHost(c[n], slices[n]))
  {
    hide Validate, MakeNetwork, SliceAllowed, NoTrailingDash;
    var raw := HostCatalog(c, slices);
    forall n | n in slices ensures MakeNetwork(raw[n]).Some? <==> NoTrailingDash(c[n], slices[n]) {
      EngineAcceptsValidated(c[n], n, [], slices[n]);
    }
    assert forall m, n :: m in raw && n in raw && m != n ==> Apart(c[m], c[n]);
    assert raw.Keys == slices.Keys;
  }
}
