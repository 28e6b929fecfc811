/** The hand-over of each member VM's own Administrator password: a pending one is stored, the deploy makes
    the VM take it, a marker says it did, and it becomes the VM's own. Every commit, file and VM change is
    one step, and the process may stop between any two. */
module VmPasswords {
  import opened Wrappers

  /** What a deploy's inventory says of a VM: the password Administrator should have, and the one to sign in
      with when that isn't the environment's; labape-admin2's; and those of its local accounts. An absent
      entry is "". */
  datatype HostVars = HostVars(admin: string, signIn: Option<string>, recovery: string, accounts: map<string, string>)

  const NO_VARS := HostVars("", None, "", map[])

  /** The stored own and pending passwords, labape-admin2's and the local accounts', by VM; the workspace's
      host variables and markers; and the Administrator password each VM really has. */
  datatype State = State(own: map<string, string>, pending: map<string, string>, recovery: map<string, string>,
                         accounts: map<(string, string), string>, files: map<string, HostVars>, markers: set<string>,
                         actual: map<string, string>)

  function Get<K>(m: map<K, string>, vm: K): string {
    if vm in m then m[vm] else ""
  }

  /** `admin_password` */
  function AdminPassword(s: State, vm: string, env: string): string {
    if Get(s.own, vm) != "" then Get(s.own, vm) else env
  }

  // --- the steps ----------------------------------------------------------------------------

  /** What `host_vars` gives a VM, once all its passwords are there: Administrator's and labape-admin2's to a
      member server, and those of the local accounts it has. */
  function VarsFor(s: State, vm: string, member: bool, accounts: set<string>): HostVars {
    var theirs := map a | a in accounts :: Get(s.accounts, (vm, a));
    if !member then HostVars("", None, "", theirs)
    else if Get(s.own, vm) != "" then HostVars(Get(s.own, vm), Some(Get(s.own, vm)), Get(s.recovery, vm), theirs)
    else HostVars(Get(s.pending, vm), None, Get(s.recovery, vm), theirs)
  }

  /** No password in it is missing. */
  predicate Complete(v: HostVars, member: bool) {
    (member ==> v.admin != "" && v.recovery != "") && forall a :: a in v.accounts ==> v.accounts[a] != ""
  }

  /** data.update(v): what v has replaces what the file has. */
  function Updated(data: HostVars, v: HostVars): HostVars {
    HostVars(if v.admin != "" then v.admin else data.admin,
             if v.signIn.Some? then v.signIn else data.signIn,
             if v.recovery != "" then v.recovery else data.recovery,
             if v.accounts != map[] then v.accounts else data.accounts)
  }

  function FileOf(s: State, vm: string): HostVars {
    if vm in s.files then s.files[vm] else NO_VARS
  }

  /** Writing a VM's variables replaces what they are about and keeps the rest of its file: a member server's
      Administrator and labape-admin2, whoever's local accounts. */
  lemma WritingReplaces(s: State, vm: string, member: bool, accounts: set<string>)
    requires Complete(VarsFor(s, vm, member, accounts), member)
    ensures var (before, v) := (FileOf(s, vm), FileOf(Do(s, WriteVars(vm, member, accounts)), vm));
            && (member ==>
                  && v.admin == (if Get(s.own, vm) != "" then Get(s.own, vm) else Get(s.pending, vm))
                  && v.signIn == (if Get(s.own, vm) != "" then Some(Get(s.own, vm)) else before.signIn)
                  && v.recovery == Get(s.recovery, vm))
            && (!member ==> v.(accounts := before.accounts) == before)
            && (accounts == {} ==> v.accounts == before.accounts)
            && (accounts != {} ==>
                  && v.accounts.Keys == accounts
                  && forall a :: a in accounts ==> v.accounts[a] == Get(s.accounts, (vm, a)))
  {
    var v := VarsFor(s, vm, member, accounts);
    assert v.accounts.Keys == accounts;
    assert accounts == {} <==> v.accounts == map[];
  }

  /** VmTakes is the deploy's task that sets the password on the VM; LeaveMarker is the last of those tasks. Rotate
      is a rotation of the VM's Administrator password, set on the VM and stored as its own. */
  datatype Move =
    | MakePending(vm: string, pw: string)
    | MakeRecovery(vm: string, pw: string)
    | MakeAccount(vm: string, account: string, pw: string)
    | WriteVars(vm: string, member: bool, accounts: set<string>)
    | ClearMarker(vm: string)
    | VmTakes(vm: string)
    | LeaveMarker(vm: string)
    | BecomeOwn(vm: string)
    | ClearPending(vm: string)
    | Rotate(vm: string, pw: string)

  /** The password the deploy signs in to the VM with. */
  function SignIn(s: State, vm: string, env: string): string {
    if vm in s.files && s.files[vm].signIn.Some? then s.files[vm].signIn.value else env
  }

  /** When a move can be made: the VM takes a password only from someone signed in, and a marker is left
      only after signing in with the password it should have. */
  predicate Can(s: State, m: Move, env: string) {
    var vm := m.vm;
    match m
    case MakePending(_, pw) => Get(s.own, vm) == "" && Get(s.pending, vm) == "" && pw != ""
    case MakeRecovery(_, pw) => Get(s.recovery, vm) == "" && pw != ""
    case MakeAccount(_, a, pw) => Get(s.accounts, (vm, a)) == "" && pw != ""
    case WriteVars(_, member, accounts) => Complete(VarsFor(s, vm, member, accounts), member)
    case ClearMarker(_) => vm in s.markers
    case VmTakes(_) => vm in s.files && s.files[vm].admin != "" && Get(s.actual, vm) == SignIn(s, vm, env)
    case LeaveMarker(_) => vm in s.files && s.files[vm].admin != "" && Get(s.actual, vm) == s.files[vm].admin
    case BecomeOwn(_) => vm in s.markers && Get(s.pending, vm) != ""
    case ClearPending(_) => Get(s.own, vm) == Get(s.pending, vm)
    case Rotate(_, pw) => Get(s.actual, vm) == AdminPassword(s, vm, env) && IsNew(s, vm, pw, env)
  }

  /** A random password is none that is about for the VM. */
  predicate IsNew(s: State, vm: string, pw: string, env: string) {
    pw !in {"", env, Get(s.own, vm), Get(s.pending, vm), FileOf(s, vm).admin} && FileOf(s, vm).signIn != Some(pw)
  }

  function Do(s: State, m: Move): State {
    var vm := m.vm;
    match m
    case MakePending(_, pw) => s.(pending := s.pending[vm := pw])
    case MakeRecovery(_, pw) => s.(recovery := s.recovery[vm := pw])
    case MakeAccount(_, a, pw) => s.(accounts := s.accounts[(vm, a) := pw])
    case WriteVars(_, member, accounts) =>
      s.(files := s.files[vm := Updated(FileOf(s, vm), VarsFor(s, vm, member, accounts))])
    case ClearMarker(_) => s.(markers := s.markers - {vm})
    case VmTakes(_) => s.(actual := s.actual[vm := if vm in s.files then s.files[vm].admin else ""])
    case LeaveMarker(_) => s.(markers := s.markers + {vm})
    case BecomeOwn(_) => s.(own := s.own[vm := Get(s.pending, vm)])
    case ClearPending(_) => s.(pending := s.pending[vm := ""])
    case Rotate(_, pw) => s.(own := s.own[vm := pw], actual := s.actual[vm := pw])
  }

  function After(s: State, moves: seq<Move>): State {
    if moves == [] then s else Do(After(s, moves[..|moves| - 1]), moves[|moves| - 1])
  }

  /** Each move could be made when it was. */
  predicate Legal(s: State, moves: seq<Move>, env: string) {
    moves == []
    || (Legal(s, moves[..|moves| - 1], env) && Can(After(s, moves[..|moves| - 1]), moves[|moves| - 1], env))
  }

  /** Each rotation of the VM found nothing pending for it. */
  predicate RotatedWhenSettled(s: State, moves: seq<Move>, vm: string) {
    moves == []
    || (var (front, m) := (moves[..|moves| - 1], moves[|moves| - 1]);
        RotatedWhenSettled(s, front, vm) && (m.Rotate? && m.vm == vm ==> Get(After(s, front).pending, vm) == ""))
  }

  /** VMs as the template's answer file leaves them. */
  predicate Init(s: State, vms: set<string>, env: string) {
    && s.own == map[] && s.pending == map[] && s.recovery == map[] && s.accounts == map[]
    && s.files == map[] && s.markers == {} && forall vm :: vm in vms ==> Get(s.actual, vm) == env
  }

  // --- what holds at every step -------------------------------------------------------------

  /** A file from before a rotation may say something else, but then nobody can sign in with what it says. */
  ghost predicate Inv(s: State, vm: string, env: string) {
    var (own, pending, actual) := (Get(s.own, vm), Get(s.pending, vm), Get(s.actual, vm));
    && (own != "" ==> actual == own && (pending != "" ==> pending == own))
    && (own == "" ==> actual == env || (pending != "" && actual == pending))
    && (vm in s.files && s.files[vm].admin != "" && (actual == SignIn(s, vm, env) || actual == s.files[vm].admin) ==>
          s.files[vm].admin == if own != "" then own else pending)
    && (vm in s.files ==>
          && (s.files[vm].recovery != "" ==> s.files[vm].recovery == Get(s.recovery, vm))
          && forall a :: a in s.files[vm].accounts ==>
               s.files[vm].accounts[a] == Get(s.accounts, (vm, a)) && Get(s.accounts, (vm, a)) != "")
    && (vm in s.markers ==> (own != "" || pending != "") && (pending != "" ==> actual == pending))
  }

  lemma MoveKeeps(s: State, m: Move, vm: string, env: string)
    requires Inv(s, vm, env) && Can(s, m, env)
    requires m.Rotate? && m.vm == vm ==> Get(s.pending, vm) == ""
    ensures Inv(Do(s, m), vm, env)
  {
    hide VarsFor, Updated, Complete, Can, Do;
    if m.vm != vm {
      OthersKeep(s, m, vm, env);
    } else if m.WriteVars? {
      WriteKeeps(s, m, vm, env);
    } else if m.Rotate? {
      RotateKeepsExactly(s, m, env);
    } else {
      StepKeeps(s, m, vm, env);
    }
  }

  /** A rotation keeps what is known about the VM's password exactly when nothing is pending for it. */
  lemma RotateKeepsExactly(s: State, m: Move, env: string)
    requires m.Rotate? && Inv(s, m.vm, env) && Can(s, m, env)
    ensures Inv(Do(s, m), m.vm, env) <==> Get(s.pending, m.vm) == ""
  {
    hide VarsFor, Updated, Complete;
  }

  lemma OthersKeep(s: State, m: Move, vm: string, env: string)
    requires Inv(s, vm, env) && m.vm != vm
    ensures Inv(Do(s, m), vm, env)
  {
    hide Do;
    OthersUntouched(s, m, vm);
  }

  lemma StepKeeps(s: State, m: Move, vm: string, env: string)
    requires Inv(s, vm, env) && Can(s, m, env) && m.vm == vm && !m.WriteVars? && !m.Rotate?
    ensures Inv(Do(s, m), vm, env)
  {
    hide VarsFor, Updated, Complete, IsNew, Do, Can, Inv;
    if m.MakePending? || m.BecomeOwn? || m.ClearPending? {
      PendingKeeps(s, m, vm, env);
    } else {
      OtherKeeps(s, m, vm, env);
    }
  }

  lemma PendingKeeps(s: State, m: Move, vm: string, env: string)
    requires Inv(s, vm, env) && Can(s, m, env) && m.vm == vm && (m.MakePending? || m.BecomeOwn? || m.ClearPending?)
    ensures Inv(Do(s, m), vm, env)
  {
  }

  lemma OtherKeeps(s: State, m: Move, vm: string, env: string)
    requires Inv(s, vm, env) && Can(s, m, env) && m.vm == vm && !m.WriteVars? && !m.Rotate?
    requires !m.MakePending? && !m.BecomeOwn? && !m.ClearPending?
    ensures Inv(Do(s, m), vm, env)
  {
    hide VarsFor, Updated, Complete, IsNew;
  }

  lemma WriteKeeps(s: State, m: Move, vm: string, env: string)
    requires m.WriteVars? && m.vm == vm && Inv(s, vm, env) && Can(s, m, env)
    ensures Inv(Do(s, m), vm, env)
  {
  }

  lemma OthersUntouched(s: State, m: Move, vm: string)
    requires m.vm != vm
    ensures var s' := Do(s, m);
            && Get(s'.own, vm) == Get(s.own, vm) && Get(s'.pending, vm) == Get(s.pending, vm)
            && Get(s'.actual, vm) == Get(s.actual, vm) && (vm in s'.markers <==> vm in s.markers)
            && (vm in s'.files <==> vm in s.files) && (vm in s.files ==> s'.files[vm] == s.files[vm])
            && Get(s'.recovery, vm) == Get(s.recovery, vm)
            && forall a :: Get(s'.accounts, (vm, a)) == Get(s.accounts, (vm, a))
  {
  }

  /** The promise: the VM's real password is the one `admin_password` returns or the pending one, and a
      stored own password is the one it has. */
  ghost predicate KnownPassword(s: State, vm: string, env: string) {
    && Get(s.actual, vm) in {AdminPassword(s, vm, env), Get(s.pending, vm)}
    && (Get(s.own, vm) != "" ==> Get(s.actual, vm) == Get(s.own, vm) == AdminPassword(s, vm, env))
  }

  /** Wherever the deploys stop, however often they are run again, whatever order the steps come in, and with
      rotations while nothing is pending. */
  lemma {:induction false} KnownAtEveryStep(s: State, moves: seq<Move>, vms: set<string>, vm: string, env: string)
    requires Init(s, vms, env) && Legal(s, moves, env) && RotatedWhenSettled(s, moves, vm) && vm in vms
    ensures Inv(After(s, moves), vm, env) && KnownPassword(After(s, moves), vm, env)
  {
    hide Do, Can, Inv, KnownPassword, Init;
    if moves == [] {
      InitKnown(s, vms, vm, env);
    } else {
      KnownAtEveryStep(s, moves[..|moves| - 1], vms, vm, env);
      MoveKeeps(After(s, moves[..|moves| - 1]), moves[|moves| - 1], vm, env);
    }
    InvKnown(After(s, moves), vm, env);
  }

  lemma InitKnown(s: State, vms: set<string>, vm: string, env: string)
    requires Init(s, vms, env) && vm in vms
    ensures Inv(s, vm, env)
  {
  }

  lemma InvKnown(s: State, vm: string, env: string)
    requires Inv(s, vm, env)
    ensures KnownPassword(s, vm, env)
  {
  }

  /** Once a VM has its own password stored, it has one for good, which is the one the VM has; and it stays the
      same but for rotations. */
  lemma {:induction false} OwnStays(s: State, moves: seq<Move>, vm: string, env: string)
    requires Inv(s, vm, env) && Legal(s, moves, env) && RotatedWhenSettled(s, moves, vm) && Get(s.own, vm) != ""
    ensures var t := After(s, moves);
            && Inv(t, vm, env) && Get(t.own, vm) == Get(t.actual, vm) != ""
            && ((forall m :: m in moves ==> !(m.Rotate? && m.vm == vm)) ==> Get(t.own, vm) == Get(s.own, vm))
  {
    hide Do, Can, Inv;
    if moves == [] {
      OwnNow(s, vm, env);
    } else {
      var (front, m) := (moves[..|moves| - 1], moves[|moves| - 1]);
      assert moves == front + [m];
      OwnStays(s, front, vm, env);
      var t := After(s, front);
      MoveKeeps(t, m, vm, env);
      OwnMove(t, m, vm, env);
      OwnNow(Do(t, m), vm, env);
    }
  }

  lemma OwnMove(s: State, m: Move, vm: string, env: string)
    requires Get(s.own, vm) != "" && Inv(s, vm, env) && Can(s, m, env)
    ensures Get(Do(s, m).own, vm) != ""
    ensures !(m.Rotate? && m.vm == vm) ==> Get(Do(s, m).own, vm) == Get(s.own, vm)
  {
    hide VarsFor, Updated, Complete;
    if m.vm != vm {
      OthersUntouched(s, m, vm);
    }
  }

  /** The hand-over never changes labape-admin2's or a local account's password once it is there, and what the
      files say of them is what is stored: every later deploy gives the VM the same. */
  lemma {:induction false} OthersStay(s: State, moves: seq<Move>, vm: string, a: string, env: string)
    requires Inv(s, vm, env) && Legal(s, moves, env) && RotatedWhenSettled(s, moves, vm)
    ensures var t := After(s, moves);
            && (Get(s.recovery, vm) != "" ==> Get(t.recovery, vm) == Get(s.recovery, vm))
            && (Get(s.accounts, (vm, a)) != "" ==> Get(t.accounts, (vm, a)) == Get(s.accounts, (vm, a)))
            && Inv(t, vm, env)
  {
    hide Do, Can, Inv;
    if moves != [] {
      OthersStay(s, moves[..|moves| - 1], vm, a, env);
      var (t, m) := (After(s, moves[..|moves| - 1]), moves[|moves| - 1]);
      MoveKeeps(t, m, vm, env);
      OthersMove(t, m, vm, a, env);
    }
  }

  lemma OthersMove(s: State, m: Move, vm: string, a: string, env: string)
    requires Can(s, m, env)
    ensures var t := Do(s, m);
            && (Get(s.recovery, vm) != "" ==> Get(t.recovery, vm) == Get(s.recovery, vm))
            && (Get(s.accounts, (vm, a)) != "" ==> Get(t.accounts, (vm, a)) == Get(s.accounts, (vm, a)))
  {
    hide VarsFor, Updated, Complete, IsNew, SignIn, AdminPassword, FileOf;
    if m.vm != vm {
      OthersUntouched(s, m, vm);
    }
  }

  lemma OwnNow(s: State, vm: string, env: string)
    requires Inv(s, vm, env) && Get(s.own, vm) != ""
    ensures Get(s.actual, vm) == Get(s.own, vm)
  {
  }

  // --- every deploy gets in -----------------------------------------------------------------

  lemma Then(s: State, moves: seq<Move>, m: Move, env: string) returns (more: seq<Move>)
    requires Legal(s, moves, env) && Can(After(s, moves), m, env)
    ensures Legal(s, more, env) && After(s, more) == Do(After(s, moves), m) && more == moves + [m]
  {
    hide Can, Do;
    more := moves + [m];
    assert more[..|more| - 1] == moves;
  }

  lemma NoMoves(s: State, env: string)
    ensures Legal(s, [], env) && After(s, []) == s
  {
  }

  /** Only a VM with a password of its own is signed in to with anything but the environment's. */
  predicate SignsInAsEnv(s: State, vm: string) {
    Get(s.own, vm) == "" ==> FileOf(s, vm).signIn == None
  }

  lemma {:induction false} AlwaysSignsInAsEnv(s: State, moves: seq<Move>, vms: set<string>, vm: string, env: string)
    requires Init(s, vms, env) && Legal(s, moves, env)
    ensures SignsInAsEnv(After(s, moves), vm)
  {
    hide Do, Can, Updated, Complete;
    if moves != [] {
      AlwaysSignsInAsEnv(s, moves[..|moves| - 1], vms, vm, env);
      SignInMove(After(s, moves[..|moves| - 1]), moves[|moves| - 1], vm, env);
    }
  }

  lemma SignInMove(s: State, m: Move, vm: string, env: string)
    requires SignsInAsEnv(s, vm) && Can(s, m, env)
    ensures SignsInAsEnv(Do(s, m), vm)
  {
    hide Complete;
    if m.vm != vm {
      OthersUntouched(s, m, vm);
    }
  }

  /** The deploy signs in to a member server with the password it really has when that is its own or still the
      environment's; otherwise it has the pending one already, which is the one it should have. */
  ghost predicate GetsIn(s: State, vm: string, env: string) {
    && (Get(s.own, vm) != "" ==>
          SignIn(s, vm, env) == Get(s.actual, vm) == Get(s.own, vm)
          && Can(s, VmTakes(vm), env) && Can(s, LeaveMarker(vm), env))
    && (if Get(s.actual, vm) == SignIn(s, vm, env)
        then Can(s, VmTakes(vm), env) && Can(Do(s, VmTakes(vm)), LeaveMarker(vm), env)
        else Get(s.own, vm) == "" && Get(s.actual, vm) == Get(s.pending, vm) && Can(s, LeaveMarker(vm), env))
  }

  /** So it is once missing passwords were made and the VM's variables written. */
  lemma WrittenGetsIn(s: State, t: State, vm: string, accounts: set<string>, env: string)
    requires Inv(s, vm, env) && SignsInAsEnv(s, vm) && Fills(s, t.(files := s.files, markers := s.markers))
    requires Complete(VarsFor(t, vm, true, accounts), true)
    requires vm in t.files && t.files[vm] == Updated(FileOf(s, vm), VarsFor(t, vm, true, accounts))
    ensures GetsIn(t, vm, env)
  {
  }

  lemma OneWrite(s: State, vm: string, accounts: set<string>, env: string)
    requires Inv(s, vm, env) && SignsInAsEnv(s, vm) && Can(s, WriteVars(vm, true, accounts), env)
    ensures GetsIn(Do(s, WriteVars(vm, true, accounts)), vm, env)
  {
    hide Inv, SignsInAsEnv, VarsFor, Updated, Complete, GetsIn, Fills, OnlyFor;
    var t := Do(s, WriteVars(vm, true, accounts));
    FillsNothing(s, [], []);
    SameStored(s, t, vm, true, accounts);
    assert t.(files := s.files, markers := s.markers) == s;
    WrittenGetsIn(s, t, vm, accounts, env);
  }

  /** A member server is settled: its own password is stored, it has it, and nothing is pending. */
  predicate Settled(s: State, vm: string) {
    Get(s.own, vm) != "" && Get(s.actual, vm) == Get(s.own, vm) && Get(s.pending, vm) == ""
  }

  /** The steps of one member server's deploy that nothing interrupts, up to its marker and after it. */
  function Deploying(s: State, vm: string, accounts: set<string>, env: string): seq<Move> {
    var t := Do(s, WriteVars(vm, true, accounts));
    if Get(t.actual, vm) == SignIn(t, vm, env) then [WriteVars(vm, true, accounts), VmTakes(vm), LeaveMarker(vm)]
    else [WriteVars(vm, true, accounts), LeaveMarker(vm)]
  }

  function Promoting(s: State, vm: string): seq<Move> {
    if Get(s.pending, vm) != "" then [BecomeOwn(vm), ClearPending(vm), ClearMarker(vm)] else [ClearMarker(vm)]
  }

  /** What a member server's deploy has done before its marker is looked at. */
  lemma TakenAndMarked(s: State, vm: string, accounts: set<string>, env: string)
    requires Inv(s, vm, env) && SignsInAsEnv(s, vm) && Can(s, WriteVars(vm, true, accounts), env)
    ensures var t := Do(s, WriteVars(vm, true, accounts));
            var u := Do(if Get(t.actual, vm) == SignIn(t, vm, env) then Do(t, VmTakes(vm)) else t, LeaveMarker(vm));
            && Get(u.pending, vm) == Get(s.pending, vm) && Promotable(u, vm)
  {
  }

  predicate Promotable(s: State, vm: string) {
    && vm in s.markers && Get(s.actual, vm) == FileOf(s, vm).admin != ""
    && Get(s.actual, vm) == (if Get(s.pending, vm) != "" then Get(s.pending, vm) else Get(s.own, vm))
  }

  lemma PromotedSettles(s: State, vm: string, env: string)
    requires Promotable(s, vm)
    ensures Get(s.pending, vm) == "" ==> Can(s, ClearMarker(vm), env) && Settled(Do(s, ClearMarker(vm)), vm)
    ensures Get(s.pending, vm) != "" ==>
      var t := Do(s, BecomeOwn(vm));
      var u := Do(t, ClearPending(vm));
      && Can(s, BecomeOwn(vm), env) && Can(t, ClearPending(vm), env) && Can(u, ClearMarker(vm), env)
      && Settled(Do(u, ClearMarker(vm)), vm)
  {
  }

  /** From anywhere deploys may have stopped, with the VM's passwords made, one more that nothing interrupts can
      make each of its steps and settles the VM. */
  lemma DeploySettles(s: State, vm: string, accounts: set<string>, env: string)
    requires Inv(s, vm, env) && SignsInAsEnv(s, vm) && Can(s, WriteVars(vm, true, accounts), env)
    ensures var t := After(s, Deploying(s, vm, accounts, env));
            && Legal(s, Deploying(s, vm, accounts, env), env) && Legal(t, Promoting(t, vm), env)
            && Settled(After(t, Promoting(t, vm)), vm)
  {
    hide Legal, After, Can, Do, Inv, SignsInAsEnv, Settled, Promotable;
    NoMoves(s, env);
    OneWrite(s, vm, accounts, env);
    var moves := Then(s, [], WriteVars(vm, true, accounts), env);
    var t := After(s, moves);
    if Get(t.actual, vm) == SignIn(t, vm, env) {
      moves := Then(s, moves, VmTakes(vm), env);
    }
    moves := Then(s, moves, LeaveMarker(vm), env);
    assert moves == Deploying(s, vm, accounts, env);
    TakenAndMarked(s, vm, accounts, env);
    Promotes(After(s, moves), vm, env);
  }

  lemma Promotes(s: State, vm: string, env: string)
    requires Promotable(s, vm)
    ensures Legal(s, Promoting(s, vm), env) && Settled(After(s, Promoting(s, vm)), vm)
  {
    hide Legal, After, Can, Do, Settled, Promotable;
    NoMoves(s, env);
    PromotedSettles(s, vm, env);
    var moves := [];
    if Get(s.pending, vm) != "" {
      moves := Then(s, moves, BecomeOwn(vm), env);
      moves := Then(s, moves, ClearPending(vm), env);
    }
    moves := Then(s, moves, ClearMarker(vm), env);
    assert moves == Promoting(s, vm);
  }

  /** So it is after whatever deploys, stopped anywhere, and rotations while nothing is pending. */
  lemma EveryDeploySettles(s: State, moves: seq<Move>, vms: set<string>, vm: string, accounts: set<string>, env: string)
    requires Init(s, vms, env) && Legal(s, moves, env) && RotatedWhenSettled(s, moves, vm) && vm in vms
    requires Can(After(s, moves), WriteVars(vm, true, accounts), env)
    ensures var t := After(s, moves);
            var u := After(t, Deploying(t, vm, accounts, env));
            && Legal(t, Deploying(t, vm, accounts, env), env) && Legal(u, Promoting(u, vm), env)
            && Settled(After(u, Promoting(u, vm)), vm)
  {
    hide Legal, After, Can, Inv, Deploying, SignsInAsEnv, Init, RotatedWhenSettled, Settled, Promoting;
    KnownAtEveryStep(s, moves, vms, vm, env);
    AlwaysSignsInAsEnv(s, moves, vms, vm, env);
    DeploySettles(After(s, moves), vm, accounts, env);
  }

  // --- a rotation in between ----------------------------------------------------------------

  /** A VM whose deploy is about to make it take its password. */
  lemma AboutToTake(s: State, vm: string, env: string) returns (moves: seq<Move>)
    requires Init(s, {vm}, env)
    ensures Legal(s, moves, env)
    ensures var t := After(s, moves);
            && Get(t.own, vm) == "" && Get(t.pending, vm) == "p" && Get(t.actual, vm) == env
            && Get(t.recovery, vm) == "r" && vm in t.files && t.files[vm] == HostVars("p", None, "r", map[])
  {
    hide Legal, After;
    moves := [];
    assert Legal(s, moves, env) && After(s, moves) == s by { NoMoves(s, env); }
    moves := Then(s, moves, MakePending(vm, "p"), env);
    moves := Then(s, moves, MakeRecovery(vm, "r"), env);
    moves := Then(s, moves, WriteVars(vm, true, {}), env);
  }

  /** A VM that has taken its password, when a deploy stops between storing it as the VM's own and clearing the
      pending one. */
  lemma StoppedHalfway(s: State, vm: string, env: string) returns (moves: seq<Move>)
    requires Init(s, {vm}, env) && env !in {"p", "n"}
    ensures Legal(s, moves, env)
    ensures var t := After(s, moves);
            && Get(t.own, vm) == Get(t.pending, vm) == Get(t.actual, vm) == "p" && vm in t.markers
            && Get(t.recovery, vm) == "r" && FileOf(t, vm) == HostVars("p", None, "r", map[])
  {
    hide Legal, After;
    moves := AboutToTake(s, vm, env);
    moves := Then(s, moves, VmTakes(vm), env);
    moves := Then(s, moves, LeaveMarker(vm), env);
    moves := Then(s, moves, BecomeOwn(vm), env);
  }

  lemma RotatedMeanwhile(s: State, vm: string, env: string) returns (moves: seq<Move>)
    requires Init(s, {vm}, env) && env !in {"p", "n"}
    ensures Legal(s, moves, env)
    ensures var t := After(s, moves);
            && Get(t.own, vm) == Get(t.actual, vm) == "n" && Get(t.pending, vm) == "p" && vm in t.markers
            && Get(t.recovery, vm) == "r" && vm in t.files && t.files[vm].admin == "n"
  {
    hide Legal, After;
    moves := StoppedHalfway(s, vm, env);
    moves := Then(s, moves, Rotate(vm, "n"), env);
    moves := Then(s, moves, WriteVars(vm, true, {}), env);
  }

  /** A rotation then leaves the old pending password where the next deploy's `promote` finds it: it is stored as
      the VM's own, which has another. */
  lemma LateRotationLosesPassword(s: State, vm: string, env: string)
    requires Init(s, {vm}, env) && env !in {"p", "n"}
    ensures exists moves :: Legal(s, moves, env) && !KnownPassword(After(s, moves), vm, env)
  {
    hide Legal, After;
    var moves := RotatedMeanwhile(s, vm, env);
    moves := Then(s, moves, ClearMarker(vm), env);
    moves := Then(s, moves, LeaveMarker(vm), env);
    moves := Then(s, moves, BecomeOwn(vm), env);
    assert !KnownPassword(After(s, moves), vm, env);
  }

  // --- the code, commit by commit -----------------------------------------------------------

  class Deploys {
    const env: string
    var s: State
    ghost const start: State
    ghost var moves: seq<Move>

    /** The state is what the moves made so far lead to, each of them one that could be made. */
    ghost predicate Valid()
      reads this
    {
      Legal(start, moves, env) && s == After(start, moves)
    }

    constructor (s: State, env: string)
      ensures Valid() && moves == [] && start == s && this.s == s && this.env == env
    {
      this.s, this.env, start, moves := s, env, s, [];
    }

    /** One commit or file change. */
    method Commit(m: Move)
      requires Valid() && Can(s, m, env)
      modifies this
      ensures Valid() && s == Do(old(s), m) && moves == old(moves) + [m]
    {
      assert (moves + [m])[..|moves|] == moves;
      s, moves := Do(s, m), moves + [m];
    }

    /** `host_vars`, for the member servers and the local accounts' VMs: passwords are made only where there is
        none. */
    method MakeHostVars(vms: seq<string>, accounts: seq<Account>) returns (out: map<string, HostVars>)
      requires Valid()
      modifies this
      ensures Valid() && old(moves) <= moves && Fills(old(s), s)
      ensures OnlyFor(old(s), s, vms, accounts)
      ensures forall vm :: Gives(s, out, vms, vm, AccountsOn(accounts, vm))
    {
      hide Legal, After, Can, Do, Fills, OnlyFor, VarsFor, Complete, Gives;
      out := map[];
      FillsNothing(s, vms, accounts);
      NothingGiven(s);
      for i := 0 to |vms|
        invariant Valid() && old(moves) <= moves && Fills(old(s), s) && OnlyFor(old(s), s, vms, accounts)
        invariant forall vm :: Gives(s, out, vms[..i], vm, {})
      {
        var vm := vms[i];
        ghost var before := s;
        MakeMember(vm);
        AlsoFills(old(s), before, s);
        AlsoOnlyFor(old(s), before, s, [vm], vms, [], accounts);
        ghost var given := out;
        out := out[vm := VarsFor(s, vm, true, {})];
        GivesMember(before, s, given, vms[..i], vm, out);
        assert vms[..i + 1] == vms[..i] + [vm];
      }
      assert vms[..|vms|] == vms;
      for i := 0 to |accounts|
        invariant Valid() && old(moves) <= moves && Fills(old(s), s) && OnlyFor(old(s), s, vms, accounts)
        invariant forall vm :: Gives(s, out, vms, vm, AccountsOn(accounts[..i], vm))
      {
        ghost var before := s;
        assert accounts[..i + 1] == accounts[..i] + [accounts[i]];
        out := MakeAccounts(accounts[i], vms, accounts[..i], out);
        AlsoFills(old(s), before, s);
        assert accounts[i] in accounts;
        AlsoOnlyFor(old(s), before, s, [], vms, [accounts[i]], accounts);
      }
      assert accounts[..|accounts|] == accounts;
    }

    /** The passwords of one member server that aren't there yet. */
    method MakeMember(vm: string)
      requires Valid()
      modifies this
      ensures Valid() && old(moves) <= moves && Fills(old(s), s) && OnlyFor(old(s), s, [vm], [])
      ensures Complete(VarsFor(s, vm, true, {}), true)
    {
      hide Legal, After, Can, Do, Fills, OnlyFor, VarsFor, Complete;
      FillsNothing(s, [vm], []);
      if Get(s.own, vm) == "" && Get(s.pending, vm) == "" {
        var pw := NewPassword();
        PendingMade(s, vm, pw, env);
        Commit(MakePending(vm, pw));
      }
      ghost var s1 := s;
      FillsNothing(s, [vm], []);
      if Get(s.recovery, vm) == "" {
        var pw := NewPassword();
        RecoveryMade(s, vm, pw, env);
        Commit(MakeRecovery(vm, pw));
      }
      AlsoFills(old(s), s1, s);
      AlsoOnlyFor(old(s), s1, s, [vm], [vm], [], []);
      MemberComplete(s1, s, vm);
    }

    /** One local account's password on each of its VMs. */
    method MakeAccounts(a: Account, ghost vms: seq<string>, ghost before: seq<Account>, out: map<string, HostVars>)
      returns (more: map<string, HostVars>)
      requires Valid() && forall vm :: Gives(s, out, vms, vm, AccountsOn(before, vm))
      modifies this
      ensures Valid() && old(moves) <= moves && Fills(old(s), s) && OnlyFor(old(s), s, [], [a])
      ensures forall vm :: Gives(s, more, vms, vm, AccountsOn(before + [a], vm))
    {
      hide Legal, After, Can, Do, Fills, OnlyFor, VarsFor, Complete, AccountsOn, Having, Gives;
      more := out;
      FillsNothing(s, [], [a]);
      AccountsNoneYet(before, a);
      for i := 0 to |a.vms|
        invariant Valid() && old(moves) <= moves && Fills(old(s), s) && OnlyFor(old(s), s, [], [a])
        invariant forall vm :: Gives(s, more, vms, vm, Having(before, a, a.vms[..i], vm))
      {
        var vm := a.vms[i];
        ghost var s0 := s;
        FillsNothing(s, [], [a]);
        if Get(s.accounts, (vm, a.name)) == "" {
          var pw := NewPassword();
          AccountMade(s, vm, a, pw, env);
          Commit(MakeAccount(vm, a.name, pw));
        }
        AlsoFills(old(s), s0, s);
        AlsoOnlyFor(old(s), s0, s, [], [], [a], [a]);
        ghost var given := more;
        more := WithAccount(more, vm, a.name, Get(s.accounts, (vm, a.name)));
        GivesAccount(s0, s, given, vms, before, a, a.vms[..i], vm, more);
        assert a.vms[..i + 1] == a.vms[..i] + [vm];
      }
      AccountsAllNow(before, a);
    }

    /** `write_host_vars`: the files, and then no marker of an earlier deploy is left. */
    method WriteHostVars(vms: seq<string>, accounts: seq<Account>) returns (count: nat)
      requires Valid()
      modifies this
      ensures Valid() && old(moves) <= moves
      ensures Fills(old(s), s.(files := old(s).files, markers := old(s).markers)) && s.markers == {}
      ensures forall vm :: vm in vms || AccountsOn(accounts, vm) != {} ==>
        var v := VarsFor(s, vm, vm in vms, AccountsOn(accounts, vm));
        vm in s.files && s.files[vm] == Updated(FileOf(old(s), vm), v) && Complete(v, vm in vms)
      ensures forall vm :: !(vm in vms || AccountsOn(accounts, vm) != {}) ==>
        FileOf(s, vm) == FileOf(old(s), vm)
      ensures count == |VmsOf(vms, accounts)|
      ensures forall vm :: vm in vms && old(Inv(s, vm, env)) && old(SignsInAsEnv(s, vm)) ==> GetsIn(s, vm, env)
    {
      hide Legal, After, Fills, OnlyFor, VarsFor, Complete, Updated, AccountsOn, Inv, SignsInAsEnv, GetsIn;
      var values := MakeHostVars(vms, accounts);
      ghost var made := s;
      FilesSame(old(s), made);
      WriteFiles(vms, accounts, values);
      ClearMarkers();
      count := |values|;
      ValuesAreFor(made, values, vms, accounts);
      assert s.(files := old(s).files, markers := old(s).markers) == made;
      forall vm | vm in vms || AccountsOn(accounts, vm) != {}
        ensures VarsFor(s, vm, vm in vms, AccountsOn(accounts, vm))
             == VarsFor(made, vm, vm in vms, AccountsOn(accounts, vm))
        ensures Gives(made, values, vms, vm, AccountsOn(accounts, vm))
      {
        SameStored(made, s, vm, vm in vms, AccountsOn(accounts, vm));
      }
      forall vm | vm in vms && old(Inv(s, vm, env)) && old(SignsInAsEnv(s, vm)) ensures GetsIn(s, vm, env) {
        WrittenGetsIn(old(s), s, vm, AccountsOn(accounts, vm), env);
      }
    }

    method WriteFiles(vms: seq<string>, accounts: seq<Account>, values: map<string, HostVars>)
      requires Valid() && forall vm :: Gives(s, values, vms, vm, AccountsOn(accounts, vm))
      modifies this
      ensures Valid() && old(moves) <= moves && s == old(s).(files := s.files)
      ensures forall vm :: vm in values ==> vm in s.files && s.files[vm] == Updated(FileOf(old(s), vm), values[vm])
      ensures forall vm :: vm !in values ==> FileOf(s, vm) == FileOf(old(s), vm)
    {
      hide Legal, After, Complete, Updated, AccountsOn, VarsFor;
      var todo := values.Keys;
      while todo != {}
        invariant todo <= values.Keys && Valid() && old(moves) <= moves && s == old(s).(files := s.files)
        invariant forall vm :: vm in values && vm !in todo ==>
          vm in s.files && s.files[vm] == Updated(FileOf(old(s), vm), values[vm])
        invariant forall vm :: vm !in values || vm in todo ==> FileOf(s, vm) == FileOf(old(s), vm)
        decreases todo
      {
        var vm :| vm in todo;
        assert Gives(old(s), values, vms, vm, AccountsOn(accounts, vm));
        SameStored(old(s), s, vm, vm in vms, AccountsOn(accounts, vm));
        Commit(WriteVars(vm, vm in vms, AccountsOn(accounts, vm)));
        todo := todo - {vm};
      }
    }

    method ClearMarkers()
      requires Valid()
      modifies this
      ensures Valid() && old(moves) <= moves && s == old(s).(markers := {})
    {
      hide Legal, After;
      while s.markers != {}
        invariant Valid() && old(moves) <= moves && s == old(s).(markers := s.markers)
        decreases s.markers
      {
        var vm :| vm in s.markers;
        Commit(ClearMarker(vm));
      }
    }

    /** `promote`: the VMs whose pending password became their own. */
    method Promote() returns (done: set<string>)
      requires Valid()
      modifies this
      ensures Valid() && old(moves) <= moves
      ensures done == set vm | vm in old(s).markers && Get(old(s).pending, vm) != ""
      ensures s.markers == {} && s.files == old(s).files && s.actual == old(s).actual
      ensures forall vm :: Get(s.own, vm) == if vm in done then Get(old(s).pending, vm) else Get(old(s).own, vm)
      ensures forall vm :: Get(s.pending, vm) == if vm in done then "" else Get(old(s).pending, vm)
    {
      hide Legal, After, Can, Do;
      done := {};
      while s.markers != {}
        invariant Valid() && old(moves) <= moves
        invariant s.markers <= old(s).markers && s.files == old(s).files && s.actual == old(s).actual
        invariant done == set vm | vm in old(s).markers - s.markers && Get(old(s).pending, vm) != ""
        invariant forall vm :: Get(s.own, vm) == if vm in done then Get(old(s).pending, vm) else Get(old(s).own, vm)
        invariant forall vm :: Get(s.pending, vm) == if vm in done then "" else Get(old(s).pending, vm)
        decreases s.markers
      {
        var vm :| vm in s.markers;
        var promoted := PromoteOne(vm);
        if promoted {
          done := done + {vm};
        }
      }
    }

    method PromoteOne(vm: string) returns (promoted: bool)
      requires Valid() && vm in s.markers
      modifies this
      ensures Valid() && old(moves) <= moves && promoted == (Get(old(s).pending, vm) != "")
      ensures s.markers == old(s).markers - {vm} && s.files == old(s).files && s.actual == old(s).actual
      ensures s.own == if promoted then old(s).own[vm := Get(old(s).pending, vm)] else old(s).own
      ensures s.pending == if promoted then old(s).pending[vm := ""] else old(s).pending
    {
      hide Legal, After;
      promoted := Get(s.pending, vm) != "";
      if promoted {
        Commit(BecomeOwn(vm));
        Commit(ClearPending(vm));
      }
      Commit(ClearMarker(vm));
    }
  }

  // --- filling in what is missing -----------------------------------------------------------

  /** A local account of the environment's own, and the VMs it is on. */
  datatype Account = Account(name: string, vms: seq<string>)

  function AccountsOn(accounts: seq<Account>, vm: string): set<string> {
    if accounts == [] then {}
    else
      var a := accounts[|accounts| - 1];
      AccountsOn(accounts[..|accounts| - 1], vm) + if vm in a.vms then {a.name} else {}
  }

  /** Passwords were made, none was changed, and nothing else happened. */
  ghost predicate Fills(s: State, t: State) {
    && t == s.(pending := t.pending, recovery := t.recovery, accounts := t.accounts)
    && (forall vm :: Get(s.own, vm) != "" || Get(s.pending, vm) != "" ==> Get(t.pending, vm) == Get(s.pending, vm))
    && (forall vm :: Get(s.recovery, vm) != "" ==> Get(t.recovery, vm) == Get(s.recovery, vm))
    && forall vm, n :: Get(s.accounts, (vm, n)) != "" ==> Get(t.accounts, (vm, n)) == Get(s.accounts, (vm, n))
  }

  /** Only these VMs and accounts got one. */
  ghost predicate OnlyFor(s: State, t: State, vms: seq<string>, accounts: seq<Account>) {
    && (forall vm :: vm !in vms ==>
          Get(t.pending, vm) == Get(s.pending, vm) && Get(t.recovery, vm) == Get(s.recovery, vm))
    && forall vm, n :: (forall a :: a in accounts ==> !(n == a.name && vm in a.vms)) ==>
                         Get(t.accounts, (vm, n)) == Get(s.accounts, (vm, n))
  }

  lemma FillsNothing(s: State, vms: seq<string>, accounts: seq<Account>)
    ensures Fills(s, s) && OnlyFor(s, s, vms, accounts)
  {
  }

  lemma AlsoFills(s: State, t: State, u: State)
    requires Fills(s, t) && Fills(t, u)
    ensures Fills(s, u)
  {
  }

  lemma AlsoOnlyFor(s: State, t: State, u: State, some: seq<string>, vms: seq<string>, one: seq<Account>,
                    accounts: seq<Account>)
    requires OnlyFor(s, t, vms, accounts) && OnlyFor(t, u, some, one)
    requires (forall vm :: vm in some ==> vm in vms) && forall a :: a in one ==> a in accounts
    ensures OnlyFor(s, u, vms, accounts)
  {
  }

  lemma FilesSame(s: State, t: State)
    requires Fills(s, t)
    ensures t.files == s.files && t.(files := s.files, markers := s.markers) == t
  {
  }

  /** What a VM was given, with nothing missing, is what it would be given now. */
  lemma StillVars(s: State, t: State, vm: string, member: bool, accounts: set<string>)
    requires Fills(s, t) && Complete(VarsFor(s, vm, member, accounts), member)
    ensures VarsFor(t, vm, member, accounts) == VarsFor(s, vm, member, accounts)
  {
    AccountsStill(s, t, vm, member, accounts);
    assert member ==> Get(s.own, vm) != "" || Get(s.pending, vm) != "";
  }

  lemma AccountsStill(s: State, t: State, vm: string, member: bool, accounts: set<string>)
    requires Fills(s, t) && Complete(VarsFor(s, vm, member, accounts), member)
    ensures VarsFor(t, vm, member, accounts).accounts == VarsFor(s, vm, member, accounts).accounts
  {
    var (v, w) := (VarsFor(s, vm, member, accounts).accounts, VarsFor(t, vm, member, accounts).accounts);
    forall a | a in accounts ensures w[a] == v[a] {
      assert v[a] != "";
    }
  }

  /** A VM is given variables exactly when it is a member server or has local accounts, and then these. */
  ghost predicate Gives(s: State, out: map<string, HostVars>, members: seq<string>, vm: string, accounts: set<string>) {
    && (vm in out <==> vm in members || accounts != {})
    && (vm in out ==> out[vm] == VarsFor(s, vm, vm in members, accounts) && Complete(out[vm], vm in members))
  }

  /** The member servers and the local accounts' VMs. */
  ghost function VmsOf(vms: seq<string>, accounts: seq<Account>): set<string> {
    (set vm | vm in vms) + set a, vm | a in accounts && vm in a.vms :: vm
  }

  lemma {:induction false} HasAccounts(accounts: seq<Account>, vm: string)
    ensures AccountsOn(accounts, vm) != {} <==> exists a :: a in accounts && vm in a.vms
  {
    if accounts != [] {
      var (front, a) := (accounts[..|accounts| - 1], accounts[|accounts| - 1]);
      HasAccounts(front, vm);
      assert accounts == front + [a];
      if vm in a.vms {
        assert a.name in AccountsOn(accounts, vm);
      }
    }
  }

  lemma ValuesAreFor(s: State, out: map<string, HostVars>, vms: seq<string>, accounts: seq<Account>)
    requires forall vm :: Gives(s, out, vms, vm, AccountsOn(accounts, vm))
    ensures |out| == |VmsOf(vms, accounts)|
  {
    hide AccountsOn, VarsFor, Complete;
    forall vm ensures vm in out <==> vm in VmsOf(vms, accounts) {
      assert Gives(s, out, vms, vm, AccountsOn(accounts, vm));
      HasAccounts(accounts, vm);
    }
    assert out.Keys == VmsOf(vms, accounts);
  }

  lemma NothingGiven(s: State)
    ensures forall vm :: Gives(s, map[], [], vm, {})
  {
  }

  lemma StillGives(s: State, t: State, out: map<string, HostVars>, members: seq<string>, vm: string,
                   accounts: set<string>)
    requires Fills(s, t) && Gives(s, out, members, vm, accounts)
    ensures Gives(t, out, members, vm, accounts)
  {
    hide Fills, Complete, VarsFor;
    if vm in out {
      StillVars(s, t, vm, vm in members, accounts);
    }
  }

  lemma GivesMember(s: State, t: State, out: map<string, HostVars>, done: seq<string>, one: string,
                    more: map<string, HostVars>)
    requires Fills(s, t) && (forall vm :: Gives(s, out, done, vm, {}))
    requires Complete(VarsFor(t, one, true, {}), true) && more == out[one := VarsFor(t, one, true, {})]
    ensures forall vm :: Gives(t, more, done + [one], vm, {})
  {
    hide Fills, Complete, VarsFor;
    forall vm ensures Gives(t, more, done + [one], vm, {}) {
      StillGives(s, t, out, done, vm, {});
    }
  }

  function WithAccount(out: map<string, HostVars>, vm: string, a: string, pw: string): map<string, HostVars> {
    var v := if vm in out then out[vm] else NO_VARS;
    out[vm := v.(accounts := v.accounts[a := pw])]
  }

  lemma GivesAccount(s: State, t: State, out: map<string, HostVars>, vms: seq<string>, before: seq<Account>, a: Account,
                     done: seq<string>, one: string, more: map<string, HostVars>)
    requires Fills(s, t) && Get(t.accounts, (one, a.name)) != ""
    requires forall vm :: Gives(s, out, vms, vm, Having(before, a, done, vm))
    requires more == WithAccount(out, one, a.name, Get(t.accounts, (one, a.name)))
    ensures forall vm :: Gives(t, more, vms, vm, Having(before, a, done + [one], vm))
  {
    hide Fills, Complete, VarsFor, Having;
    HavingMore(before, a, done, one);
    forall vm ensures Gives(t, more, vms, vm, Having(before, a, done + [one], vm)) {
      var has := Having(before, a, done, vm);
      StillGives(s, t, out, vms, vm, has);
      if vm == one {
        NothingMissing();
        OneMoreAccount(t, vm, vm in vms, has, a.name, if vm in out then out[vm] else NO_VARS);
      } else {
        assert has + {} == has;
      }
    }
  }

  lemma NothingMissing()
    ensures Complete(NO_VARS, false)
  {
  }

  lemma SameStored(s: State, t: State, vm: string, member: bool, accounts: set<string>)
    requires t == s.(files := t.files, markers := t.markers)
    ensures VarsFor(t, vm, member, accounts) == VarsFor(s, vm, member, accounts)
  {
  }

  lemma PendingMade(s: State, vm: string, pw: string, env: string)
    requires Get(s.own, vm) == "" && Get(s.pending, vm) == "" && pw != ""
    ensures Can(s, MakePending(vm, pw), env)
    ensures var t := Do(s, MakePending(vm, pw));
            Fills(s, t) && OnlyFor(s, t, [vm], []) && Get(t.own, vm) == "" && Get(t.pending, vm) == pw
  {
  }

  lemma RecoveryMade(s: State, vm: string, pw: string, env: string)
    requires Get(s.recovery, vm) == "" && pw != ""
    ensures Can(s, MakeRecovery(vm, pw), env)
    ensures var t := Do(s, MakeRecovery(vm, pw));
            Fills(s, t) && OnlyFor(s, t, [vm], []) && Get(t.recovery, vm) == pw
  {
  }

  lemma AccountMade(s: State, vm: string, a: Account, pw: string, env: string)
    requires vm in a.vms && Get(s.accounts, (vm, a.name)) == "" && pw != ""
    ensures Can(s, MakeAccount(vm, a.name, pw), env)
    ensures var t := Do(s, MakeAccount(vm, a.name, pw));
            Fills(s, t) && OnlyFor(s, t, [], [a]) && Get(t.accounts, (vm, a.name)) == pw
  {
    assert a in [a];
  }

  lemma MemberComplete(s: State, t: State, vm: string)
    requires Fills(s, t) && (Get(s.own, vm) != "" || Get(s.pending, vm) != "") && Get(t.recovery, vm) != ""
    ensures Complete(VarsFor(t, vm, true, {}), true)
  {
  }

  /** The accounts a VM has, with those before and some of a's VMs done. */
  ghost function Having(before: seq<Account>, a: Account, done: seq<string>, vm: string): set<string> {
    AccountsOn(before, vm) + if vm in done then {a.name} else {}
  }

  lemma AccountsNoneYet(before: seq<Account>, a: Account)
    ensures forall vm :: Having(before, a, a.vms[..0], vm) == AccountsOn(before, vm)
  {
  }

  lemma AccountsAllNow(before: seq<Account>, a: Account)
    ensures forall vm :: Having(before, a, a.vms[..|a.vms|], vm) == AccountsOn(before + [a], vm)
  {
    assert (before + [a])[..|before|] == before && a.vms[..|a.vms|] == a.vms;
  }

  lemma HavingMore(before: seq<Account>, a: Account, done: seq<string>, one: string)
    ensures forall vm :: Having(before, a, done + [one], vm)
                         == Having(before, a, done, vm) + if vm == one then {a.name} else {}
  {
    hide AccountsOn;
  }

  lemma OneMoreAccount(s: State, vm: string, member: bool, accounts: set<string>, a: string, v: HostVars)
    requires v == VarsFor(s, vm, member, accounts) || (v == NO_VARS && !member && accounts == {})
    requires Complete(v, member) && Get(s.accounts, (vm, a)) != ""
    ensures var w := v.(accounts := v.accounts[a := Get(s.accounts, (vm, a))]);
            w == VarsFor(s, vm, member, accounts + {a}) && Complete(w, member)
  {
    var w := v.(accounts := v.accounts[a := Get(s.accounts, (vm, a))]);
    assert w.accounts == VarsFor(s, vm, member, accounts + {a}).accounts;
  }

  method NewPassword() returns (pw: string)
    ensures pw != ""
  {
    var more: string := *;
    pw := "p" + more;
  }
}
