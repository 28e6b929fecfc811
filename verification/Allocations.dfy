/** The static addresses held on the networks: `allocate` and `release`, and what every run of them keeps. */
module Allocations {
  import opened Wrappers
  import opened Sequences
  import opened Ipv4
  import opened NetPolicy
  import opened EngineNetworks

  /** One row of ip_allocations, without its network. */
  datatype Row = Row(address: Addr, env: nat, vm: string)

  datatype Held = Held(network: string, row: Row)

  /** What one call does: the addresses, a PolicyError (no free address for a VM), or a violation of the
      table's unique (network, address) constraint. The last two roll the transaction back. */
  datatype Outcome = Given(addresses: seq<Addr>) | NoneFree(vm: string) | Clash

  ghost function Addresses(rows: seq<Row>): set<Addr> {
    set r | r in rows :: r.address
  }

  function AddressList(rows: seq<Row>): seq<Addr> {
    seq(|rows|, i requires 0 <= i < |rows| => rows[i].address)
  }

  /** The environment's own addresses by VM; a later row wins. */
  function Mine(rows: seq<Row>, env: nat): map<string, Addr> {
    if rows == [] then map[]
    else
      var (m, r) := (Mine(rows[..|rows| - 1], env), rows[|rows| - 1]);
      if r.env == env then m[r.vm := r.address] else m
  }

  /** The candidates not taken, in order. */
  function Free(candidates: seq<Addr>, taken: seq<Addr>): seq<Addr> {
    if candidates == [] then []
    else (if candidates[0] in taken then [] else [candidates[0]]) + Free(candidates[1..], taken)
  }

  /** The names that have no address yet. */
  function Needing(names: seq<string>, mine: map<string, Addr>): seq<string> {
    if names == [] then []
    else Needing(names[..|names| - 1], mine) + if names[|names| - 1] in mine then [] else [names[|names| - 1]]
  }

  /** The address each name gets, when there are enough free ones. */
  function AddressesFor(names: seq<string>, mine: map<string, Addr>, free: seq<Addr>): seq<Addr>
    requires |Needing(names, mine)| <= |free|
  {
    if names == [] then []
    else
      var (front, n) := (names[..|names| - 1], names[|names| - 1]);
      AddressesFor(front, mine, free) + [if n in mine then mine[n] else free[|Needing(front, mine)|]]
  }

  function NewRows(env: nat, needing: seq<string>, free: seq<Addr>): seq<Row>
    requires |needing| <= |free|
  {
    seq(|needing|, i requires 0 <= i < |needing| => Row(free[i], env, needing[i]))
  }

  /** One network's rows, and the outcome, after an `allocate` on it. */
  function Allocated(rows: seq<Row>, candidates: seq<Addr>, env: nat, names: seq<string>): (r: (seq<Row>, Outcome))
    ensures rows <= r.0 && (!r.1.Given? ==> r.0 == rows)
  {
    var (mine, free) := (Mine(rows, env), Free(candidates, AddressList(rows)));
    var needing := Needing(names, mine);
    if |needing| > |free| then (rows, NoneFree(needing[|free|]))
    else if !Distinct(free[..|needing|]) then (rows, Clash)
    else (rows + NewRows(env, needing, free), Given(AddressesFor(names, mine, free)))
  }

  /** One network's rows after a `release`. */
  function Released(rows: seq<Row>, env: nat): seq<Row> {
    if rows == [] then []
    else Released(rows[..|rows| - 1], env) + if rows[|rows| - 1].env == env then [] else [rows[|rows| - 1]]
  }

  // --- the table ----------------------------------------------------------------------------

  /** The rows of one network, in order. */
  function On(table: seq<Held>, network: string): seq<Row> {
    if table == [] then []
    else
      var (front, h) := (On(table[..|table| - 1], network), table[|table| - 1]);
      if h.network == network then front + [h.row] else front
  }

  function HeldOn(network: string, rows: seq<Row>): seq<Held> {
    seq(|rows|, i requires 0 <= i < |rows| => Held(network, rows[i]))
  }

  /** The table and outcome of one `allocate`: new rows come last. */
  function AllocatedOn(table: seq<Held>, network: string, candidates: seq<Addr>, env: nat, names: seq<string>)
    : (seq<Held>, Outcome)
  {
    var rows := On(table, network);
    var (rows', r) := Allocated(rows, candidates, env, names);
    (table + HeldOn(network, rows'[|rows|..]), r)
  }

  /** The table after one `release`, which takes an environment's rows on every network. */
  function ReleasedAll(table: seq<Held>, env: nat): seq<Held> {
    if table == [] then []
    else
      var (front, h) := (ReleasedAll(table[..|table| - 1], env), table[|table| - 1]);
      if h.row.env == env then front else front + [h]
  }

  class Table {
    var held: seq<Held>

    constructor ()
      ensures held == []
    {
      held := [];
    }

    /** `allocate`, committing when it returns and rolling back when it raises. */
    method Allocate(network: string, candidates: seq<Addr>, env: nat, names: seq<string>) returns (r: Outcome)
      modifies this
      ensures (held, r) == AllocatedOn(old(held), network, candidates, env, names)
    {
      hide AddressesFor, Needing, Free, Mine, NewRows, On;
      var rows := On(held, network);
      var mine, free := Mine(rows, env), Free(candidates, AddressList(rows));
      var out: seq<Addr>, added: seq<Row>, next := [], [], 0;
      NoNames(env, mine, free);
      WithNothing(held);
      assert rows[|rows|..] == [] && HeldOn(network, []) == [];
      for i := 0 to |names|
        invariant held == old(held) && next == |Needing(names[..i], mine)| <= |free|
        invariant out == AddressesFor(names[..i], mine, free)
        invariant added == NewRows(env, Needing(names[..i], mine), free)
      {
        NextName(names, i, env, mine, free);
        if names[i] in mine {
          out := out + [mine[names[i]]];
        } else {
          if next >= |free| {
            FirstRefused(names, i, mine, |free|);
            return NoneFree(names[i]);
          }
          added := added + [Row(free[next], env, names[i])];
          out := out + [free[next]];
          next := next + 1;
        }
      }
      assert names[..|names|] == names;
      if !Distinct(free[..next]) {
        return Clash;
      }
      held := held + HeldOn(network, added);
      assert (rows + added)[|rows|..] == added;
      return Given(out);
    }

    /** `release`: the number of rows deleted. */
    method Release(env: nat) returns (n: nat)
      modifies this
      ensures held == ReleasedAll(old(held), env) && n == |old(held)| - |held|
    {
      var kept: seq<Held> := [];
      n := 0;
      for i := 0 to |held|
        invariant kept == ReleasedAll(held[..i], env) && n == i - |kept|
      {
        assert held[..i + 1][..i] == held[..i];
        if held[i].row.env == env {
          n := n + 1;
        } else {
          kept := kept + [held[i]];
        }
      }
      assert held[..|held|] == held;
      held := kept;
    }
  }

  lemma {:induction false} OnConcat(t: seq<Held>, u: seq<Held>, network: string)
    ensures On(t + u, network) == On(t, network) + On(u, network)
  {
    if u == [] {
      WithNothing(t);
      WithNothing(On(t, network));
    } else {
      var (front, h) := (u[..|u| - 1], u[|u| - 1]);
      OnConcat(t, front, network);
      assert (t + u)[..|t + u| - 1] == t + front;
      Assoc(On(t, network), On(front, network), [h.row]);
    }
  }

  lemma {:induction false} OnHeldOn(network: string, rows: seq<Row>, other: string)
    ensures On(HeldOn(network, rows), other) == if other == network then rows else []
  {
    if rows != [] {
      var front := rows[..|rows| - 1];
      OnHeldOn(network, front, other);
      assert HeldOn(network, rows)[..|rows| - 1] == HeldOn(network, front);
    }
  }

  /** An `allocate` does to its network's rows what is said of it, and nothing to the others'. */
  lemma AllocatedOnEach(table: seq<Held>, network: string, candidates: seq<Addr>, env: nat, names: seq<string>,
                        other: string)
    ensures On(AllocatedOn(table, network, candidates, env, names).0, other)
         == if other == network then Allocated(On(table, network), candidates, env, names).0 else On(table, other)
  {
    hide Allocated, On, HeldOn;
    var rows := On(table, network);
    var added := Allocated(rows, candidates, env, names).0[|rows|..];
    OnConcat(table, HeldOn(network, added), other);
    OnHeldOn(network, added, other);
    WithNothing(On(table, other));
  }

  /** A `release` takes the environment's rows on each network. */
  lemma {:induction false} ReleasedOnEach(table: seq<Held>, env: nat, network: string)
    ensures On(ReleasedAll(table, env), network) == Released(On(table, network), env)
  {
    if table != [] {
      var (front, h) := (table[..|table| - 1], table[|table| - 1]);
      ReleasedOnEach(front, env, network);
      ReleasedOneMore(On(front, network), h.row, env);
      OnConcat(ReleasedAll(front, env), [h], network);
      OneOn(h, network);
      WithNothing(On(ReleasedAll(front, env), network));
    }
  }

  lemma OneOn(h: Held, network: string)
    ensures On([h], network) == if h.network == network then [h.row] else []
  {
    assert [h][..0] == [] && On([], network) == [];
  }

  lemma ReleasedOneMore(rows: seq<Row>, row: Row, env: nat)
    ensures Released(rows + [row], env) == if row.env == env then Released(rows, env) else Released(rows, env) + [row]
  {
    assert (rows + [row])[..|rows|] == rows;
  }

  lemma NoNames(env: nat, mine: map<string, Addr>, free: seq<Addr>)
    ensures Needing([], mine) == [] && AddressesFor([], mine, free) == [] && NewRows(env, [], free) == []
  {
  }

  lemma NextName(names: seq<string>, i: nat, env: nat, mine: map<string, Addr>, free: seq<Addr>)
    requires i < |names|
    ensures var (before, after) := (Needing(names[..i], mine), Needing(names[..i + 1], mine));
            && after == before + (if names[i] in mine then [] else [names[i]])
            && (|after| <= |free| ==>
                  && AddressesFor(names[..i + 1], mine, free)
                     == AddressesFor(names[..i], mine, free)
                        + [if names[i] in mine then mine[names[i]] else free[|before|]]
                  && NewRows(env, after, free)
                     == NewRows(env, before, free)
                        + if names[i] in mine then [] else [Row(free[|before|], env, names[i])])
  {
    assert names[..i + 1][..i] == names[..i];
  }

  /** The first name without an address is the one the refusal names. */
  lemma {:induction false} FirstRefused(names: seq<string>, i: nat, mine: map<string, Addr>, k: nat)
    requires i < |names| && |Needing(names[..i], mine)| == k && names[i] !in mine
    ensures |Needing(names, mine)| > k && Needing(names, mine)[k] == names[i]
    decreases |names|
  {
    if i + 1 < |names| {
      var front := names[..|names| - 1];
      assert front[..i] == names[..i];
      FirstRefused(front, i, mine, k);
    }
  }

  // --- runs ---------------------------------------------------------------------------------

  datatype Op = Allocate(candidates: seq<Addr>, env: nat, names: seq<string>) | Release(env: nat)

  function Step(rows: seq<Row>, op: Op): seq<Row> {
    match op
    case Allocate(candidates, env, names) => Allocated(rows, candidates, env, names).0
    case Release(env) => Released(rows, env)
  }

  function Run(ops: seq<Op>): seq<Row> {
    if ops == [] then [] else Step(Run(ops[..|ops| - 1]), ops[|ops| - 1])
  }

  /** A call on the table, of any network. */
  datatype TableOp =
    | AllocateOn(network: string, candidates: seq<Addr>, env: nat, names: seq<string>) | ReleaseEnv(env: nat)

  function TableStep(table: seq<Held>, op: TableOp): seq<Held> {
    match op
    case AllocateOn(network, candidates, env, names) => AllocatedOn(table, network, candidates, env, names).0
    case ReleaseEnv(env) => ReleasedAll(table, env)
  }

  function TableAfter(ops: seq<TableOp>): seq<Held> {
    if ops == [] then [] else TableStep(TableAfter(ops[..|ops| - 1]), ops[|ops| - 1])
  }

  /** The calls that matter to one network. */
  function OpsOf(ops: seq<TableOp>, network: string): seq<Op> {
    if ops == [] then []
    else
      var (front, op) := (OpsOf(ops[..|ops| - 1], network), ops[|ops| - 1]);
      match op
      case AllocateOn(n, candidates, env, names) =>
        if n == network then front + [Allocate(candidates, env, names)] else front
      case ReleaseEnv(env) => front + [Release(env)]
  }

  /** Each network of the table goes its own way: its rows are those of the run of its own calls, so what
      every run of one network's calls keeps, the table keeps for each. */
  lemma {:induction false} EachNetworkRuns(ops: seq<TableOp>, network: string)
    ensures On(TableAfter(ops), network) == Run(OpsOf(ops, network))
  {
    hide Allocated, Released, AllocatedOn, ReleasedAll;
    if ops != [] {
      var (front, op) := (ops[..|ops| - 1], ops[|ops| - 1]);
      EachNetworkRuns(front, network);
      match op
      case AllocateOn(n, candidates, env, names) =>
        AllocatedOnEach(TableAfter(front), n, candidates, env, names, network);
        RunOneMore(OpsOf(front, network), Allocate(candidates, env, names));
      case ReleaseEnv(env) =>
        ReleasedOnEach(TableAfter(front), env, network);
        RunOneMore(OpsOf(front, network), Release(env));
    }
  }

  lemma RunOneMore(ops: seq<Op>, op: Op)
    ensures Run(ops + [op]) == Step(Run(ops), op)
  {
    hide Step;
    assert (ops + [op])[..|ops|] == ops;
  }

  ghost predicate NamesDistinct(op: Op) {
    op.Allocate? ==> Distinct(op.names)
  }

  /** Every candidate of the call is an address the network may hand out. */
  ghost predicate Draws(op: Op, pool: set<Addr>) {
    op.Allocate? ==> forall a :: a in op.candidates ==> a in pool
  }

  ghost predicate OneAddressEach(rows: seq<Row>) {
    forall i, j :: 0 <= i < j < |rows| ==> !(rows[i].env == rows[j].env && rows[i].vm == rows[j].vm)
  }

  ghost predicate HeldOnce(rows: seq<Row>) {
    forall i, j :: 0 <= i < j < |rows| ==> rows[i].address != rows[j].address
  }

  ghost predicate HeldFrom(rows: seq<Row>, pool: set<Addr>) {
    forall r :: r in rows ==> r.address in pool
  }

  lemma {:induction false} FreeAre(candidates: seq<Addr>, taken: seq<Addr>)
    ensures forall a :: a in Free(candidates, taken) <==> a in candidates && a !in taken
    ensures Distinct(candidates) ==> Distinct(Free(candidates, taken))
  {
    if candidates != [] {
      FreeAre(candidates[1..], taken);
      var (first, more) := (if candidates[0] in taken then [] else [candidates[0]], Free(candidates[1..], taken));
      if Distinct(candidates) {
        assert forall j :: 1 <= j < |candidates| ==> candidates[0] != candidates[j];
        assert Distinct(candidates[1..]);
        DistinctConcat(first, more);
      }
    }
  }

  lemma {:induction false} NeedingAre(names: seq<string>, mine: map<string, Addr>)
    ensures forall n :: n in Needing(names, mine) <==> n in names && n !in mine
    ensures Distinct(names) ==> Distinct(Needing(names, mine))
  {
    if names != [] {
      var (front, n) := (names[..|names| - 1], names[|names| - 1]);
      NeedingAre(front, mine);
      assert names == front + [n];
      if Distinct(names) {
        assert forall j :: 0 <= j < |front| ==> names[j] != n;
        assert Distinct(front);
        DistinctConcat(Needing(front, mine), if n in mine then [] else [n]);
      }
    }
  }

  lemma {:induction false} MineAre(rows: seq<Row>, env: nat)
    ensures forall vm :: vm in Mine(rows, env) ==> Row(Mine(rows, env)[vm], env, vm) in rows
    ensures forall r :: r in rows && r.env == env ==> r.vm in Mine(rows, env)
    ensures OneAddressEach(rows) ==> forall r :: r in rows && r.env == env ==> Mine(rows, env)[r.vm] == r.address
  {
    if rows != [] {
      var (front, r) := (rows[..|rows| - 1], rows[|rows| - 1]);
      MineAre(front, env);
      assert rows == front + [r];
      if OneAddressEach(rows) {
        forall x | x in rows && x.env == env ensures Mine(rows, env)[x.vm] == x.address {
          if x in front {
            var i :| 0 <= i < |front| && front[i] == x;
            assert !(rows[i].env == r.env && rows[i].vm == r.vm);
          }
        }
      }
    }
  }

  lemma {:induction false} ReleasedRows(rows: seq<Row>, env: nat)
    ensures forall r :: r in Released(rows, env) <==> r in rows && r.env != env
  {
    if rows != [] {
      ReleasedRows(rows[..|rows| - 1], env);
      assert rows == rows[..|rows| - 1] + [rows[|rows| - 1]];
    }
  }

  lemma {:induction false} ReleasedHeldOnce(rows: seq<Row>, env: nat)
    requires HeldOnce(rows)
    ensures HeldOnce(Released(rows, env))
  {
    if rows != [] {
      var (front, r, kept) := (rows[..|rows| - 1], rows[|rows| - 1], Released(rows[..|rows| - 1], env));
      ReleasedHeldOnce(front, env);
      ReleasedRows(front, env);
      forall i | 0 <= i < |kept| ensures kept[i].address != r.address {
        assert kept[i] in front;
      }
    }
  }

  lemma {:induction false} ReleasedOneEach(rows: seq<Row>, env: nat)
    requires OneAddressEach(rows)
    ensures OneAddressEach(Released(rows, env))
  {
    if rows != [] {
      var (front, r, kept) := (rows[..|rows| - 1], rows[|rows| - 1], Released(rows[..|rows| - 1], env));
      ReleasedOneEach(front, env);
      ReleasedRows(front, env);
      forall i | 0 <= i < |kept| ensures !(kept[i].env == r.env && kept[i].vm == r.vm) {
        assert kept[i] in front;
      }
    }
  }

  /** The new rows: for names without an address, at free candidates, each its own. */
  lemma NewRowsAre(rows: seq<Row>, candidates: seq<Addr>, env: nat, names: seq<string>)
    requires Allocated(rows, candidates, env, names).1.Given?
    ensures var added := NewRows(env, Needing(names, Mine(rows, env)), Free(candidates, AddressList(rows)));
            && Allocated(rows, candidates, env, names).0 == rows + added && HeldOnce(added)
            && (Distinct(names) ==> OneAddressEach(added))
            && forall r :: r in added ==> r.address in candidates && r.address !in AddressList(rows)
                                          && r.env == env && r.vm in names && r.vm !in Mine(rows, env)
  {
    hide Needing, Free, Mine, AddressesFor;
    var (free, needing) := (Free(candidates, AddressList(rows)), Needing(names, Mine(rows, env)));
    FreeAre(candidates, AddressList(rows));
    NeedingAre(names, Mine(rows, env));
    var added := NewRows(env, needing, free);
    forall i, j | 0 <= i < j < |added| ensures added[i].address != added[j].address {
      assert free[..|needing|][i] != free[..|needing|][j];
    }
    forall r | r in added ensures r.address in free && r.env == env && r.vm in needing {
      var k :| 0 <= k < |added| && added[k] == r;
      assert free[k] in free && needing[k] in needing;
    }
  }

  /** One allocation adds rows for exactly the names without an address, from the free candidates. */
  lemma AllocatedKeeps(rows: seq<Row>, candidates: seq<Addr>, env: nat, names: seq<string>)
    requires HeldOnce(rows)
    ensures var rows' := Allocated(rows, candidates, env, names).0;
            && HeldOnce(rows') && rows <= rows'
            && (forall r :: r in rows'[|rows|..] ==> r.address in candidates && r.env == env && r.vm in names)
            && (OneAddressEach(rows) && Distinct(names) ==> OneAddressEach(rows'))
  {
    hide Needing, Free, Mine, AddressesFor, NewRows;
    if Allocated(rows, candidates, env, names).1.Given? {
      NewRowsAre(rows, candidates, env, names);
      MineAre(rows, env);
      var added := NewRows(env, Needing(names, Mine(rows, env)), Free(candidates, AddressList(rows)));
      forall i, j | 0 <= i < |rows| && 0 <= j < |added|
        ensures rows[i].address != added[j].address && !(rows[i].env == env && rows[i].vm == added[j].vm)
      {
        assert rows[i] in rows && added[j] in added && AddressList(rows)[i] in AddressList(rows);
      }
      assert (rows + added)[|rows|..] == added;
    }
  }

  /** Whatever calls were made on a network: no address is held twice, and every one held is one the
      network may hand out; and if no call repeated a name, each VM holds at most one. */
  lemma {:induction false} EveryRun(ops: seq<Op>, pool: set<Addr>)
    requires forall i :: 0 <= i < |ops| ==> Draws(ops[i], pool)
    ensures HeldOnce(Run(ops)) && HeldFrom(Run(ops), pool)
    ensures (forall i :: 0 <= i < |ops| ==> NamesDistinct(ops[i])) ==> OneAddressEach(Run(ops))
  {
    hide Allocated, Released;
    if ops != [] {
      var (rows, op) := (Run(ops[..|ops| - 1]), ops[|ops| - 1]);
      EveryRun(ops[..|ops| - 1], pool);
      match op
      case Release(env) =>
        ReleasedRows(rows, env);
        ReleasedHeldOnce(rows, env);
        if OneAddressEach(rows) {
          ReleasedOneEach(rows, env);
        }
      case Allocate(candidates, env, names) =>
        AllocatedKeeps(rows, candidates, env, names);
        var rows' := Allocated(rows, candidates, env, names).0;
        assert rows' == rows + rows'[|rows|..];
    }
  }

  lemma StepKeeps(rows: seq<Row>, op: Op, row: Row)
    requires HeldOnce(rows) && row in rows && op != Release(row.env)
    ensures row in Step(rows, op)
  {
    hide Allocated, Released;
    match op
    case Release(env) => ReleasedRows(rows, env);
    case Allocate(candidates, env, names) => AllocatedKeeps(rows, candidates, env, names);
  }

  lemma RunMore(ops: seq<Op>, more: seq<Op>)
    requires more != []
    ensures Run(ops + more) == Step(Run(ops + more[..|more| - 1]), more[|more| - 1])
  {
    hide Step;
    assert (ops + more)[..|ops + more| - 1] == ops + more[..|more| - 1];
  }

  /** Whatever is called later, a VM's address stays its own until its environment is released. */
  lemma {:induction false} AddressIsKept(ops: seq<Op>, more: seq<Op>, row: Row)
    requires row in Run(ops) && Release(row.env) !in more
    ensures row in Run(ops + more)
  {
    hide Run, Step;
    if more == [] {
      WithNothing(ops);
    } else {
      var (front, op) := (more[..|more| - 1], more[|more| - 1]);
      assert op in more && forall x :: x in front ==> x in more;
      AddressIsKept(ops, front, row);
      EveryCallKeepsOnce(ops + front);
      StepKeeps(Run(ops + front), op, row);
      RunMore(ops, more);
    }
  }

  lemma EveryCallKeepsOnce(ops: seq<Op>)
    ensures HeldOnce(Run(ops))
  {
    hide Run, HeldOnce, HeldFrom;
    var pool := set i, a | 0 <= i < |ops| && ops[i].Allocate? && a in ops[i].candidates :: a;
    EveryRun(ops, pool);
  }

  /** And until then, when no call repeats a name, any later call for the VM that succeeds gives it back. */
  lemma KeptAddressIsGiven(ops: seq<Op>, more: seq<Op>, row: Row, candidates: seq<Addr>, names: seq<string>, i: nat)
    requires row in Run(ops) && Release(row.env) !in more
    requires forall op :: op in ops + more ==> NamesDistinct(op)
    requires i < |names| && names[i] == row.vm && Allocated(Run(ops + more), candidates, row.env, names).1.Given?
    ensures var r := Allocated(Run(ops + more), candidates, row.env, names).1;
            |r.addresses| == |names| && r.addresses[i] == row.address
  {
    hide Run, HeldOnce, HeldFrom, Allocated;
    AddressIsKept(ops, more, row);
    var pool := set i, a | 0 <= i < |ops + more| && (ops + more)[i].Allocate? && a in (ops + more)[i].candidates :: a;
    EveryRun(ops + more, pool);
    GivenAreHeld(Run(ops + more), candidates, row.env, names, i);
  }

  ghost predicate RepeatsOnlyHeld(names: seq<string>, mine: map<string, Addr>) {
    forall i, j :: 0 <= i < j < |names| && names[i] == names[j] ==> names[i] in mine
  }

  lemma RepeatsOneMore(front: seq<string>, n: string, mine: map<string, Addr>)
    ensures RepeatsOnlyHeld(front + [n], mine) <==> RepeatsOnlyHeld(front, mine) && (n in front ==> n in mine)
  {
    var names := front + [n];
    if RepeatsOnlyHeld(names, mine) {
      forall i, j | 0 <= i < j < |front| && front[i] == front[j] ensures front[i] in mine {
        assert names[i] == names[j];
      }
      if n in front {
        var i :| 0 <= i < |front| && front[i] == n;
        assert names[i] == names[|front|];
      }
    }
  }

  lemma {:induction false} NeedingDistinct(names: seq<string>, mine: map<string, Addr>)
    ensures Distinct(Needing(names, mine)) <==> RepeatsOnlyHeld(names, mine)
  {
    hide RepeatsOnlyHeld, Distinct;
    if names == [] {
      NothingRepeats(mine);
    } else {
      var (front, n) := (names[..|names| - 1], names[|names| - 1]);
      assert names == front + [n];
      NeedingDistinct(front, mine);
      NeedingAre(front, mine);
      RepeatsOneMore(front, n, mine);
      DistinctConcat(Needing(front, mine), if n in mine then [] else [n]);
      NothingRepeats(mine);
      OneIsDistinct(n);
    }
  }

  lemma NothingRepeats(mine: map<string, Addr>)
    ensures RepeatsOnlyHeld([], mine) && Distinct<string>([])
  {
  }

  lemma OneIsDistinct(n: string)
    ensures Distinct([n])
  {
  }

  /** A call that succeeds leaves each VM with one address exactly when it repeats no name that had none. */
  lemma OneEachExactly(rows: seq<Row>, candidates: seq<Addr>, env: nat, names: seq<string>)
    requires OneAddressEach(rows) && Allocated(rows, candidates, env, names).1.Given?
    ensures OneAddressEach(Allocated(rows, candidates, env, names).0) <==> RepeatsOnlyHeld(names, Mine(rows, env))
  {
    hide Needing, Free, Mine, AddressesFor, RepeatsOnlyHeld;
    var (mine, free) := (Mine(rows, env), Free(candidates, AddressList(rows)));
    var needing := Needing(names, mine);
    NeedingDistinct(names, mine);
    NeedingAre(names, mine);
    MineAre(rows, env);
    var added := NewRows(env, needing, free);
    forall i, j | 0 <= i < |rows| && 0 <= j < |added| ensures !(rows[i].env == env && rows[i].vm == added[j].vm) {
      assert rows[i] in rows && needing[j] in needing;
    }
    assert forall i :: 0 <= i < |needing| ==> added[i].vm == needing[i];
    if !Distinct(needing) {
      var i, j :| 0 <= i < j < |needing| && needing[i] == needing[j];
      assert (rows + added)[|rows| + i] == added[i] && (rows + added)[|rows| + j] == added[j];
    }
  }

  /** A call that repeats a name that has no address yet gives it two: only the rows from before the call are
      looked at. */
  lemma RepeatedNameGetsTwo(env: nat, vm: string, a: Addr, b: Addr)
    requires a != b
    ensures Run([Allocate([a, b], env, [vm, vm])]) == [Row(a, env, vm), Row(b, env, vm)]
  {
    var (names, c) := ([vm, vm], [a, b]);
    assert [Allocate(c, env, names)][..0] == [];
    assert Run([Allocate(c, env, names)]) == Allocated([], c, env, names).0;
    assert names[..1] == [vm] && [vm][..0] == [] && Needing([vm], map[]) == [vm];
    assert Needing(names, map[]) == [vm, vm];
    NothingTaken(c);
    assert AddressList([]) == [] && c[..2] == c;
    assert NewRows(env, names, c) == [Row(a, env, vm), Row(b, env, vm)];
  }

  /** What a call returns, name by name: the address the VM holds afterwards, its old one if it had one. */
  lemma GivenAreHeld(rows: seq<Row>, candidates: seq<Addr>, env: nat, names: seq<string>, i: nat)
    requires OneAddressEach(rows) && i < |names|
    requires Allocated(rows, candidates, env, names).1.Given?
    ensures var (rows', r) := Allocated(rows, candidates, env, names);
            && |r.addresses| == |names| && Row(r.addresses[i], env, names[i]) in rows'
            && forall held :: held in rows && held.env == env && held.vm == names[i] ==> r.addresses[i] == held.address
  {
    hide Needing, Free, Mine, AddressesFor;
    var (mine, free) := (Mine(rows, env), Free(candidates, AddressList(rows)));
    MineAre(rows, env);
    GivenAt(names, mine, free, i);
    var needing := Needing(names, mine);
    if names[i] !in mine {
      var k := |Needing(names[..i], mine)|;
      assert NewRows(env, needing, free)[k] == Row(free[k], env, names[i]);
    }
  }

  lemma {:induction false} GivenAt(names: seq<string>, mine: map<string, Addr>, free: seq<Addr>, i: nat)
    requires |Needing(names, mine)| <= |free| && i < |names|
    ensures var k := |Needing(names[..i], mine)|;
            && |AddressesFor(names, mine, free)| == |names|
            && (names[i] in mine ==> AddressesFor(names, mine, free)[i] == mine[names[i]])
            && (names[i] !in mine ==> k < |Needing(names, mine)| && Needing(names, mine)[k] == names[i]
                                      && AddressesFor(names, mine, free)[i] == free[k])
    decreases |names|
  {
    var front := names[..|names| - 1];
    if i < |front| {
      GivenAt(front, mine, free, i);
      assert front[..i] == names[..i];
    } else {
      assert names[..i] == front;
      GivenLength(front, mine, free);
    }
  }

  lemma {:induction false} GivenLength(names: seq<string>, mine: map<string, Addr>, free: seq<Addr>)
    requires |Needing(names, mine)| <= |free|
    ensures |AddressesFor(names, mine, free)| == |names|
  {
    if names != [] {
      GivenLength(names[..|names| - 1], mine, free);
    }
  }

  /** With candidates that are all different, a call is refused exactly when fewer of them are free than
      there are VMs without an address, and never for any other reason. */
  lemma RefusesExactly(rows: seq<Row>, candidates: seq<Addr>, env: nat, names: seq<string>)
    requires Distinct(candidates)
    ensures var r := Allocated(rows, candidates, env, names).1;
            var free := Elements(candidates) - Addresses(rows);
            && (r.NoneFree? <==> |free| < |Needing(names, Mine(rows, env))|)
            && (r.Given? <==> |free| >= |Needing(names, Mine(rows, env))|)
            && (r.NoneFree? ==> r.vm in names && r.vm !in Mine(rows, env))
  {
    hide Needing, Mine, Free;
    var list := Free(candidates, AddressList(rows));
    FreeAre(candidates, AddressList(rows));
    NeedingAre(names, Mine(rows, env));
    var free := Elements(candidates) - Addresses(rows);
    forall a ensures a in AddressList(rows) <==> a in Addresses(rows) { AddressListed(rows, a); }
    assert free == Elements(list);
    DistinctCount(list);
    var k := |Needing(names, Mine(rows, env))|;
    if k <= |list| {
      assert Distinct(list[..k]);
    } else {
      assert Needing(names, Mine(rows, env))[|list|] in Needing(names, Mine(rows, env));
    }
  }

  /** The VM a refusal names is the first that no free address is left for: those before it that had none would
      have taken them all. */
  lemma NamesFirstLeftOut(rows: seq<Row>, candidates: seq<Addr>, env: nat, names: seq<string>)
    requires Allocated(rows, candidates, env, names).1.NoneFree?
    ensures var mine := Mine(rows, env);
            exists i :: 0 <= i < |names| && names[i] == Allocated(rows, candidates, env, names).1.vm
                        && names[i] !in mine && Allocated(rows, candidates, env, names[..i + 1]).1.NoneFree?
                        && !Allocated(rows, candidates, env, names[..i]).1.NoneFree?
  {
    hide Needing, Mine, Free;
    var (mine, free) := (Mine(rows, env), Free(candidates, AddressList(rows)));
    var i := NeedingAt(names, mine, |free|);
    assert Allocated(rows, candidates, env, names[..i + 1]).1.NoneFree?;
  }

  lemma {:induction false} NeedingAt(names: seq<string>, mine: map<string, Addr>, k: nat) returns (i: nat)
    requires k < |Needing(names, mine)|
    ensures i < |names| && names[i] == Needing(names, mine)[k] && names[i] !in mine
    ensures |Needing(names[..i], mine)| == k && |Needing(names[..i + 1], mine)| == k + 1
  {
    var front := names[..|names| - 1];
    if k < |Needing(front, mine)| {
      i := NeedingAt(front, mine, k);
      assert front[..i] == names[..i] && front[..i + 1] == names[..i + 1];
    } else {
      i := |front|;
      assert names[..i + 1] == names;
    }
  }

  /** New addresses are handed out in the candidates' order: every candidate before the one a VM gets was taken. */
  lemma FirstFreeIsGiven(rows: seq<Row>, candidates: seq<Addr>, env: nat, names: seq<string>, k: nat)
    requires Allocated(rows, candidates, env, names).1.Given?
    requires |rows| <= k < |Allocated(rows, candidates, env, names).0|
    ensures var all := Allocated(rows, candidates, env, names).0;
            exists j :: 0 <= j < |candidates| && candidates[j] == all[k].address
                        && forall i :: 0 <= i < j ==> candidates[i] in Addresses(all[..k])
  {
    hide Needing, Mine, Free;
    var all := Allocated(rows, candidates, env, names).0;
    var free := Free(candidates, AddressList(rows));
    var j := FreeAt(candidates, AddressList(rows), k - |rows|);
    forall i | 0 <= i < j ensures candidates[i] in Addresses(all[..k]) {
      if candidates[i] in AddressList(rows) {
        AddressListed(rows, candidates[i]);
        var r :| r in rows && r.address == candidates[i];
        assert r in all[..k];
      } else {
        FreeAre(candidates[..j], AddressList(rows));
        assert candidates[..j][i] in free[..k - |rows|];
        var m :| 0 <= m < k - |rows| && free[m] == candidates[i];
        assert all[..k][|rows| + m].address == free[m];
      }
    }
  }

  lemma {:induction false} FreeAt(candidates: seq<Addr>, taken: seq<Addr>, k: nat) returns (j: nat)
    requires k < |Free(candidates, taken)|
    ensures j < |candidates| && candidates[j] == Free(candidates, taken)[k]
    ensures Free(candidates[..j], taken) == Free(candidates, taken)[..k]
  {
    if candidates[0] !in taken && k == 0 {
      j := 0;
    } else {
      var i := FreeAt(candidates[1..], taken, if candidates[0] in taken then k else k - 1);
      j := i + 1;
      assert candidates[..j][1..] == candidates[1..][..i];
    }
  }

  lemma AddressListed(rows: seq<Row>, a: Addr)
    ensures a in AddressList(rows) <==> a in Addresses(rows)
  {
    if a in Addresses(rows) {
      var r :| r in rows && r.address == a;
      var i :| 0 <= i < |rows| && rows[i] == r;
      assert AddressList(rows)[i] == a;
    }
  }

  // --- pools that share an address ----------------------------------------------------------

  function Letters(n: nat): (s: string)
    ensures |s| == n
  {
    if n == 0 then "" else Letters(n - 1) + "v"
  }

  function Names(n: nat): seq<string> {
    seq(n, i requires 0 <= i < n => Letters(i))
  }

  /** The unique constraint is never hit, whatever is held and asked for, exactly when no eligible
      address is in two of the pools. */
  lemma NeverClashes(r: Rules)
    ensures PoolsShareNothing(r, 0)
        <==> forall rows, env, names :: Allocated(rows, Candidates(r), env, names).1 != Clash
  {
    hide Candidates, PoolsShareNothing;
    CandidatesDistinct(r);
    var c := Candidates(r);
    if Distinct(c) {
      forall rows, env, names ensures Allocated(rows, c, env, names).1 != Clash {
        RefusesExactly(rows, c, env, names);
      }
    } else {
      ClashWhenAskingForAll(c);
    }
  }

  lemma ClashWhenAskingForAll(c: seq<Addr>)
    requires !Distinct(c)
    ensures Allocated([], c, 0, Names(|c|)).1 == Clash
  {
    NothingTaken(c);
    assert AddressList([]) == [];
    var names := Names(|c|);
    AllNeeding(names);
    assert c[..|c|] == c;
  }

  lemma {:induction false} NothingTaken(c: seq<Addr>)
    ensures Free(c, []) == c
  {
    if c != [] {
      NothingTaken(c[1..]);
    }
  }

  lemma {:induction false} AllNeeding(names: seq<string>)
    ensures Needing(names, map[]) == names
  {
    if names != [] {
      AllNeeding(names[..|names| - 1]);
    }
  }

  /** One network, calls for any environments, each on a host with the whole pools or a slice of them:
      no address is held twice, and each is in the pools and not the network, broadcast or gateway
      address, DHCP's, or reserved. */
  lemma NetworkAllocations(f: Fields, ops: seq<Op>, i: nat, j: nat)
    requires RulesOf(f, []).Some?
    requires forall k :: 0 <= k < |ops| && ops[k].Allocate? ==>
      exists slice :: SliceAllowed(slice, f) && RulesOf(f, slice).Some?
                      && ops[k].candidates == Candidates(RulesOf(f, slice).value)
    requires i < |Run(ops)| && j < |Run(ops)|
    ensures var r := RulesOf(f, []).value;
            && (i != j ==> Run(ops)[i].address != Run(ops)[j].address)
            && InAny(r.pools, Run(ops)[i].address) && Eligible(r, Run(ops)[i].address)
  {
    hide Candidates, Run, RulesOf, SliceAllowed;
    var r := RulesOf(f, []).value;
    var pool := set a | a in Candidates(r);
    forall k | 0 <= k < |ops| ensures Draws(ops[k], pool) {
      if ops[k].Allocate? {
        var slice :| SliceAllowed(slice, f) && RulesOf(f, slice).Some?
                     && ops[k].candidates == Candidates(RulesOf(f, slice).value);
        forall a | a in ops[k].candidates ensures a in pool {
          SliceCandidates(f, slice, a);
        }
      }
    }
    EveryRun(ops, pool);
    assert Run(ops)[i] in Run(ops);
    CandidatesAre(r, Run(ops)[i].address);
  }

  /** App and engine together: on an entry and a slice the app accepted, written without a trailing dash,
      the engine takes the same fields, and has nothing against any address a call newly hands out. */
  lemma NewAddressesHaveNoProblem(f: Fields, name: string, others: seq<(string, Cidr)>, slice: seq<string>,
                                  rows: seq<Row>, env: nat, names: seq<string>)
    requires Validate(f, name, others) == None && SliceAllowed(slice, f) && HeldOnce(rows)
    requires NoTrailingDash(f, slice)
    ensures RulesOf(f, slice).Some? && MakeNetwork(ForHost(f, slice)).Some?
    ensures var (c, net) := (Candidates(RulesOf(f, slice).value), MakeNetwork(ForHost(f, slice)).value);
            forall row :: row in Allocated(rows, c, env, names).0 && row !in rows ==>
                            StaticProblem(net, row.address) == None
  {
    hide Validate, SliceAllowed, HeldOnce, NoTrailingDash, RulesOf, MakeNetwork, Candidates, Allocated, StaticProblem;
    EngineAcceptsValidated(f, name, others, slice);
    CandidatesHaveNoProblem(f, slice, 0);
    var (c, net) := (Candidates(RulesOf(f, slice).value), MakeNetwork(ForHost(f, slice)).value);
    forall a: Addr ensures a in c ==> StaticProblem(net, a) == None {
      CandidatesHaveNoProblem(f, slice, a);
    }
    AllocatedKeeps(rows, c, env, names);
  }
}
