/** Linking stacks with a one-time code, as steps of a distributed protocol: each commit on either side, and
    each check whose answer a later commit relies on, is one step; either side may stop between any two of its
    own, and steps of different handshakes may come between them.

    SHA-256 is an ideal hash (equal only for equal tokens). A token is named by the stack that made it, the
    peer it was made for and a number, so two tokens are equal only if they are the same one. */
module Links {
  import opened Wrappers

  type Url = string

  const INVITE_TTL: int := 3_600_000_000   // one hour, in microseconds

  datatype Token = Token(madeBy: Url, madeFor: Url, n: nat)

  datatype Hash = Sha(of: Token)

  /** A stack's CA root as sent, by its fingerprint. */
  datatype Pem = Ca(fingerprint: string) | NotACertificate

  // --- codes --------------------------------------------------------------------------------

  /** What is pasted as a code: without LABaPe's prefix, with it but not decodable to the three fields, or
      decodable to them. */
  datatype Pasted = Foreign | Undecodable | Fields(url: string, fingerprint: string, secret: string)

  datatype Code = NotACode | DamagedCode | Code(url: Url, fingerprint: string, secret: string)

  predicate IsHttps(url: string) {
    "https://" <= url
  }

  /** url.rstrip("/") */
  function WithoutSlashes(url: string): (r: string)
    ensures r <= url && (r != "" ==> r[|r| - 1] != '/')
  {
    if url != "" && url[|url| - 1] == '/' then WithoutSlashes(url[..|url| - 1]) else url
  }

  function LowerChar(c: char): char {
    if 'A' <= c <= 'Z' then (c as int + 32) as char else c
  }

  /** text.lower(), for ASCII text. */
  function Lower(text: string): (r: string)
    ensures |r| == |text| && forall i :: 0 <= i < |r| ==> r[i] == LowerChar(text[i])
  {
    seq(|text|, i requires 0 <= i < |text| => LowerChar(text[i]))
  }

  /** `parse_code` */
  function ParseCode(p: Pasted): Code {
    match p
    case Foreign => NotACode
    case Undecodable => DamagedCode
    case Fields(u, f, secret) =>
      var (url, fp) := (WithoutSlashes(u), Lower(f));
      if !IsHttps(url) || |fp| != 64 || secret == "" then DamagedCode else Code(url, fp, secret)
  }

  /** Each letter of a fingerprint may come in either case. */
  predicate SameDigits(fingerprint: string, f: string) {
    |f| == |fingerprint|
    && forall i :: 0 <= i < |f| ==>
         || (('0' <= fingerprint[i] <= '9' || 'a' <= fingerprint[i] <= 'f') && f[i] == fingerprint[i])
         || ('a' <= fingerprint[i] <= 'f' && f[i] == "ABCDEF"[fingerprint[i] as int - 'a' as int])
  }

  predicate Slashes(s: string) {
    forall i :: 0 <= i < |s| ==> s[i] == '/'
  }

  lemma {:induction false} SlashesGo(url: string, slashes: string)
    requires url != "" && url[|url| - 1] != '/' && Slashes(slashes)
    ensures WithoutSlashes(url + slashes) == url
  {
    if slashes == "" {
      assert url + slashes == url;
    } else {
      SlashesGo(url, slashes[..|slashes| - 1]);
      assert (url + slashes)[..|url + slashes| - 1] == url + slashes[..|slashes| - 1];
    }
  }

  /** A code a stack made, pasted on another, gives its address, fingerprint and secret, however many slashes are
      put after the address and in whichever case the fingerprint is. */
  lemma MadeCodesParse(own: Url, fingerprint: string, secret: string, slashes: string, f: string)
    requires IsHttps(own) && own[|own| - 1] != '/' && secret != ""
    requires |fingerprint| == 64 && SameDigits(fingerprint, f) && Slashes(slashes)
    ensures ParseCode(Fields(own + slashes, f, secret)) == Code(own, fingerprint, secret)
  {
    SlashesGo(own, slashes);
    assert Lower(f) == fingerprint;
  }

  /** Whatever is pasted, a code that is taken has an https address, a fingerprint's length and a secret; and only
      what lacks one of them, or isn't a code at all, isn't taken. */
  lemma OnlyCodesParse(p: Pasted)
    ensures var c := ParseCode(p);
            && (c == NotACode <==> p == Foreign)
            && (c.Code? ==> IsHttps(c.url) && c.url[|c.url| - 1] != '/' && |c.fingerprint| == 64 && c.secret != "")
            && (c == DamagedCode && p.Fields? ==>
                  |p.fingerprint| != 64 || p.secret == "" || !IsHttps(WithoutSlashes(p.url)))
  {
  }

  // --- the world ----------------------------------------------------------------------------

  /** A row of stack_link_invites, by the stack that made it and the code's secret. */
  datatype Invite = Invite(madeAt: int, used: bool)

  /** A row of stack_links: the hash of the token the peer calls with, and the CA it is pinned to. */
  datatype Link = Link(hash: Hash, ca: string)

  /** How far a handshake is; Checked is between the inviter's checks and its commit. */
  datatype Phase = Posted | Checked(at: int) | Accepted(theirs: Token) | Answered(theirs: Token) | Joined(theirs: Token)

  /** The removing side, and the call to its peer, which goes on even if nobody waits for it. */
  datatype Remover = Telling | Told | DropsLink | Gone
  datatype Call = Sent(token: Token) | Recognised | LinkLeft | Over

  /** x joins y with a code of y's (`alive` says x still waits), or x removes its link with y. */
  datatype Activity =
    | Joining(x: Url, y: Url, secret: string, mine: Token, pinned: string, ca: Pem, phase: Phase, alive: bool)
    | Removing(x: Url, y: Url, remover: Remover, call: Call)

  datatype Acceptance = Acceptance(inviter: Url, secret: string, peer: Url, at: int)

  /** The pair (owner, peer) names a link's row on the owner's side and the token the owner calls the peer
      with; any number of handshakes and removals may be going on. */
  datatype World = World(
    links: map<(Url, Url), Link>,
    outbound: map<(Url, Url), Token>,
    invites: map<(Url, string), Invite>,
    doing: map<nat, Activity>,
    accepted: seq<Acceptance>)

  datatype Step =
    | MakeInvite(a: Url, secret: string, now: int)
    | StartJoin(h: nat, b: Url, a: Url, secret: string, n: nat, pinned: string, ca: Pem)
    | CheckCode(h: nat, now: int)
    | CommitAccept(h: nat, n: nat)
    | StoreAtInviter(h: nat)
    | CommitAtJoiner(h: nat)
    | StoreAtJoiner(h: nat)
    | JoinerStops(h: nat)
    | InviterStops(h: nat)
    | StartRemove(h: nat, x: Url, y: Url)
    | PeerRecognises(h: nat)
    | PeerDropsSecret(h: nat)
    | PeerDropsItsLink(h: nat)
    | PeerStops(h: nat)
    | RemoverGoesOn(h: nat)
    | DropSecret(h: nat)
    | DropLink(h: nat)
    | RemoverStops(h: nat)

  predicate JoiningIn(w: World, h: nat) {
    h in w.doing && w.doing[h].Joining?
  }

  predicate RemovingIn(w: World, h: nat) {
    h in w.doing && w.doing[h].Removing?
  }

  datatype Verdict = Fine | InvalidCode | NeedsOwnHttps | LinkedAlready | NotACa

  /** What `accept` on a checks, in order, for a posted handshake. */
  function Judge(w: World, act: Activity, now: int): Verdict
    requires act.Joining?
  {
    var (b, a) := (act.x, act.y);
    if (a, act.secret) !in w.invites || w.invites[(a, act.secret)].used
       || w.invites[(a, act.secret)].madeAt + INVITE_TTL < now then InvalidCode
    else if !IsHttps(b) || b == a then NeedsOwnHttps
    else if (a, b) in w.links then LinkedAlready
    else if act.ca == NotACertificate then NotACa
    else Fine
  }

  predicate Between(act: Activity, x: Url, y: Url) {
    (act.x == x && act.y == y) || (act.x == y && act.y == x)
  }

  /** Nothing else is going on between the two. */
  predicate Idle(w: World, x: Url, y: Url) {
    forall h :: h in w.doing ==> !Between(w.doing[h], x, y)
  }

  /** `caller`: whether a call to y with this token is taken as coming from x. */
  predicate CalledBy(w: World, y: Url, t: Token, x: Url) {
    (y, x) in w.links && w.links[(y, x)].hash == Sha(t)
  }

  /** When a step can be taken. The commits fail on a link that is there by then, by its unique address, and
      look at nothing else again. */
  predicate Can(w: World, s: Step) {
    match s
    case MakeInvite(a, secret, _) => (a, secret) !in w.invites
    case StartJoin(h, b, a, _, _, _, _) =>
      h !in w.doing && a != b && (b, a) !in w.links
    case CheckCode(h, now) => JoiningIn(w, h) && w.doing[h].phase.Posted? && Judge(w, w.doing[h], now) == Fine
    case CommitAccept(h, _) =>
      JoiningIn(w, h) && w.doing[h].phase.Checked? && (w.doing[h].y, w.doing[h].x) !in w.links && w.doing[h].ca.Ca?
      && (w.doing[h].y, w.doing[h].secret) in w.invites
    case StoreAtInviter(h) => JoiningIn(w, h) && w.doing[h].phase.Accepted?
    case CommitAtJoiner(h) =>
      JoiningIn(w, h) && w.doing[h].phase.Answered? && w.doing[h].alive && (w.doing[h].x, w.doing[h].y) !in w.links
    case StoreAtJoiner(h) => JoiningIn(w, h) && w.doing[h].phase.Joined?
    case JoinerStops(h) => JoiningIn(w, h)
    case InviterStops(h) => JoiningIn(w, h)
    case StartRemove(h, x, y) => h !in w.doing && (x, y) in w.links
    case PeerRecognises(h) =>
      RemovingIn(w, h) && w.doing[h].call.Sent? && CalledBy(w, w.doing[h].y, w.doing[h].call.token, w.doing[h].x)
    case PeerDropsSecret(h) => RemovingIn(w, h) && w.doing[h].call.Recognised?
    case PeerDropsItsLink(h) => RemovingIn(w, h) && w.doing[h].call.LinkLeft?
    case PeerStops(h) => RemovingIn(w, h)
    case RemoverGoesOn(h) => RemovingIn(w, h) && w.doing[h].remover.Telling?
    case DropSecret(h) => RemovingIn(w, h) && w.doing[h].remover.Told?
    case DropLink(h) => RemovingIn(w, h) && w.doing[h].remover.DropsLink?
    case RemoverStops(h) => RemovingIn(w, h)
  }

  /** A handshake or removal starts with nothing else going on between the two. */
  predicate Alone(w: World, s: Step) {
    match s
    case StartJoin(_, b, a, _, _, _, _) => Idle(w, b, a)
    case StartRemove(_, x, y) => Idle(w, x, y)
    case _ => true
  }

  /** `exclusive` keeps a pair's handshakes and removals from overlapping. */
  predicate Takes(w: World, s: Step, exclusive: bool) {
    Can(w, s) && (exclusive ==> Alone(w, s))
  }

  function Stored(w: World, x: Url, y: Url): Option<Token> {
    if (x, y) in w.outbound then Some(w.outbound[(x, y)]) else None
  }

  /** The activity goes on as act, unless nothing of it is left to do. */
  function With(w: World, h: nat, act: Activity): map<nat, Activity> {
    if act.Removing? && act.remover.Gone? && act.call.Over? then w.doing - {h} else w.doing[h := act]
  }

  function Do(w: World, s: Step): World
    requires Can(w, s)
  {
    match s
    case MakeInvite(a, secret, now) => w.(invites := w.invites[(a, secret) := Invite(now, false)])
    case StartJoin(h, b, a, secret, n, pinned, ca) =>
      w.(doing := w.doing[h := Joining(b, a, secret, Token(b, a, n), pinned, ca, Posted, true)])
    case CheckCode(h, now) => w.(doing := With(w, h, w.doing[h].(phase := Checked(now))))
    case CommitAccept(h, n) =>
      var act := w.doing[h];
      var (b, a, code, t) := (act.x, act.y, (act.y, act.secret), Token(act.y, act.x, n));
      w.(links := w.links[(a, b) := Link(Sha(t), act.ca.fingerprint)],
         invites := w.invites[code := w.invites[code].(used := true)],
         doing := With(w, h, act.(phase := Accepted(t))),
         accepted := w.accepted + [Acceptance(a, act.secret, b, act.phase.at)])
    case StoreAtInviter(h) =>
      var act := w.doing[h];
      w.(outbound := w.outbound[(act.y, act.x) := act.mine],
         doing := With(w, h, act.(phase := Answered(act.phase.theirs))))
    case CommitAtJoiner(h) =>
      var act := w.doing[h];
      w.(links := w.links[(act.x, act.y) := Link(Sha(act.mine), act.pinned)],
         doing := With(w, h, act.(phase := Joined(act.phase.theirs))))
    case StoreAtJoiner(h) =>
      var act := w.doing[h];
      w.(outbound := w.outbound[(act.x, act.y) := act.phase.theirs], doing := w.doing - {h})
    case JoinerStops(h) =>
      var phase := w.doing[h].phase;
      w.(doing := if phase.Answered? || phase.Joined? then w.doing - {h} else With(w, h, w.doing[h].(alive := false)))
    case InviterStops(h) => w.(doing := if w.doing[h].phase.Joined? then w.doing else w.doing - {h})
    case StartRemove(h, x, y) =>
      var token := Stored(w, x, y);
      w.(doing := With(w, h, Removing(x, y, Telling, if token.Some? then Sent(token.value) else Over)))
    case PeerRecognises(h) => w.(doing := With(w, h, w.doing[h].(call := Recognised)))
    case PeerDropsSecret(h) =>
      w.(outbound := w.outbound - {(w.doing[h].y, w.doing[h].x)}, doing := With(w, h, w.doing[h].(call := LinkLeft)))
    case PeerDropsItsLink(h) =>
      w.(links := w.links - {(w.doing[h].y, w.doing[h].x)}, doing := With(w, h, w.doing[h].(call := Over)))
    case PeerStops(h) => w.(doing := With(w, h, w.doing[h].(call := Over)))
    case RemoverGoesOn(h) => w.(doing := With(w, h, w.doing[h].(remover := Told)))
    case DropSecret(h) =>
      w.(outbound := w.outbound - {(w.doing[h].x, w.doing[h].y)},
         doing := With(w, h, w.doing[h].(remover := DropsLink)))
    case DropLink(h) =>
      w.(links := w.links - {(w.doing[h].x, w.doing[h].y)}, doing := With(w, h, w.doing[h].(remover := Gone)))
    case RemoverStops(h) => w.(doing := With(w, h, w.doing[h].(remover := Gone)))
  }

  const NOTHING: World := World(map[], map[], map[], map[], [])

  /** The world after these steps, if each could be taken when it was. */
  function Reached(steps: seq<Step>, exclusive: bool): Option<World> {
    if steps == [] then Some(NOTHING)
    else
      var (before, s) := (Reached(steps[..|steps| - 1], exclusive), steps[|steps| - 1]);
      if before.Some? && Takes(before.value, s, exclusive) then Some(Do(before.value, s))
      else None
  }

  predicate Legal(steps: seq<Step>, exclusive: bool) {
    Reached(steps, exclusive).Some?
  }

  function Run(steps: seq<Step>, exclusive: bool): World
    requires Legal(steps, exclusive)
  {
    Reached(steps, exclusive).value
  }

  lemma NoSteps(exclusive: bool)
    ensures Legal([], exclusive) && Run([], exclusive) == NOTHING
  {
  }

  lemma OneMore(steps: seq<Step>, s: Step, exclusive: bool)
    requires Legal(steps, exclusive) && Takes(Run(steps, exclusive), s, exclusive)
    ensures Legal(steps + [s], exclusive) && Run(steps + [s], exclusive) == Do(Run(steps, exclusive), s)
  {
    hide Can, Alone, Do;
    assert (steps + [s])[..|steps|] == steps;
  }

  lemma LastStep(steps: seq<Step>, exclusive: bool)
    requires Legal(steps, exclusive) && steps != []
    ensures var (front, s) := (steps[..|steps| - 1], steps[|steps| - 1]);
            && Legal(front, exclusive) && Takes(Run(front, exclusive), s, exclusive)
            && Run(steps, exclusive) == Do(Run(front, exclusive), s)
  {
    hide Can, Alone, Do;
  }

  /** Either side of a handshake stopping leaves the other to go on with its own steps, and takes no more of its
      own. */
  lemma JoiningStopsOneSide(w: World, stop: Step, s: Step)
    requires Can(w, stop) && (stop.JoinerStops? || stop.InviterStops?)
    requires (InviterStep(s) || JoinerStep(s)) && s.h == stop.h && !s.JoinerStops? && !s.InviterStops?
    ensures stop.JoinerStops? ==> if JoinerStep(s) then !Can(Do(w, stop), s) else Can(w, s) ==> Can(Do(w, stop), s)
    ensures stop.InviterStops? ==> if InviterStep(s) then !Can(Do(w, stop), s)
                                   else Can(w, s) && s.StoreAtJoiner? ==> Can(Do(w, stop), s)
  {
    hide CalledBy;
  }

  /** So it is with a removal and the call it makes: the call goes on though the remover doesn't wait for it. */
  lemma RemovingStopsOneSide(w: World, stop: Step, s: Step)
    requires Can(w, stop) && (stop.RemoverStops? || stop.PeerStops?)
    requires (RemoverStep(s) || PeerStep(s)) && s.h == stop.h && !s.RemoverStops? && !s.PeerStops?
    ensures if stop.RemoverStops? == RemoverStep(s) then !Can(Do(w, stop), s) else Can(w, s) ==> Can(Do(w, stop), s)
  {
    hide Judge;
  }

  /** A joiner that has stopped, however far the inviter has come. */
  predicate Stopped(w: World, h: nat) {
    h in w.doing ==> w.doing[h].Joining? && !w.doing[h].alive && !w.doing[h].phase.Joined?
  }

  lemma StaysStopped(w: World, s: Step, h: nat)
    requires Stopped(w, h) && Can(w, s) && !(s.StartJoin? && s.h == h) && !(s.StartRemove? && s.h == h)
    ensures Stopped(Do(w, s), h) && s != CommitAtJoiner(h) && s != StoreAtJoiner(h)
  {
    hide Judge, CalledBy, Stored;
  }

  predicate StartsAgain(s: Step, h: nat) {
    (s.StartJoin? || s.StartRemove?) && s.h == h
  }

  /** Once a joiner has stopped, its handshake commits and stores nothing on its side, whatever else happens. */
  lemma {:induction false} StoppedJoinerIsDone(steps: seq<Step>, more: seq<Step>, exclusive: bool, h: nat)
    requires Legal(steps + [JoinerStops(h)] + more, exclusive)
    requires forall s :: s in more ==> !StartsAgain(s, h)
    ensures Stopped(Run(steps + [JoinerStops(h)] + more, exclusive), h)
    ensures CommitAtJoiner(h) !in more && StoreAtJoiner(h) !in more
  {
    hide Legal, Run, Can, Alone, Do, Stopped;
    var all := steps + [JoinerStops(h)] + more;
    LastStep(all, exclusive);
    if more == [] {
      assert all == steps + [JoinerStops(h)] && all[..|all| - 1] == steps;
      NowStopped(Run(steps, exclusive), h);
    } else {
      var (front, s) := (more[..|more| - 1], more[|more| - 1]);
      assert all[..|all| - 1] == steps + [JoinerStops(h)] + front && more == front + [s];
      StoppedJoinerIsDone(steps, front, exclusive, h);
      assert s in more;
      StaysStopped(Run(steps + [JoinerStops(h)] + front, exclusive), s, h);
    }
  }

  lemma NowStopped(w: World, h: nat)
    requires Can(w, JoinerStops(h))
    ensures Stopped(Do(w, JoinerStops(h)), h)
  {
  }

  // --- how often a code is accepted ---------------------------------------------------------

  /** Every acceptance is of a code made at most an hour before it was checked, for another stack with an https
      address, and marks the code used. */
  ghost predicate InTime(w: World) {
    && (forall i :: 0 <= i < |w.accepted| ==>
          var code := (w.accepted[i].inviter, w.accepted[i].secret);
          && code in w.invites && w.invites[code].used && w.accepted[i].at <= w.invites[code].madeAt + INVITE_TTL
          && IsHttps(w.accepted[i].peer) && w.accepted[i].peer != w.accepted[i].inviter)
    && forall h :: CheckedIn(w, h) ==>
         var code := (w.doing[h].y, w.doing[h].secret);
         && code in w.invites && w.doing[h].phase.at <= w.invites[code].madeAt + INVITE_TTL && w.doing[h].ca.Ca?
         && IsHttps(w.doing[h].x) && w.doing[h].x != w.doing[h].y
  }

  predicate CheckedIn(w: World, h: nat) {
    JoiningIn(w, h) && w.doing[h].phase.Checked?
  }

  lemma CommitInTime(w: World, s: Step)
    requires InTime(w) && Can(w, s) && s.CommitAccept?
    ensures InTime(Do(w, s))
  {
    assert CheckedIn(w, s.h);
  }

  lemma OtherInTime(w: World, s: Step)
    requires InTime(w) && Can(w, s) && !s.CommitAccept?
    ensures InTime(Do(w, s))
  {
    hide CalledBy, Idle, Stored;
    assert Do(w, s).accepted == w.accepted;
    CheckedBefore(w, s);
  }

  lemma CheckedBefore(w: World, s: Step)
    requires Can(w, s) && !s.CommitAccept?
    ensures forall h :: CheckedIn(Do(w, s), h) ==>
      var (act, act') := (w.doing[h], Do(w, s).doing[h]);
      act'.x == act.x && act'.y == act.y && act'.secret == act.secret && act'.ca == act.ca
      && ((CheckedIn(w, h) && act.phase == act'.phase)
          || (s.CheckCode? && s.h == h && act'.phase.at == s.now && Judge(w, act, s.now) == Fine))
  {
    hide Judge, Idle, CalledBy, Stored;
  }

  lemma InTimeStep(w: World, s: Step)
    requires InTime(w) && Can(w, s)
    ensures InTime(Do(w, s))
  {
    hide InTime, Can, Do;
    if s.CommitAccept? {
      CommitInTime(w, s);
    } else {
      OtherInTime(w, s);
    }
  }

  lemma {:induction false} AlwaysInTime(steps: seq<Step>, exclusive: bool)
    requires Legal(steps, exclusive)
    ensures InTime(Run(steps, exclusive))
  {
    hide Can, Alone, Do, InTime, Legal, Run;
    if steps == [] {
      NoSteps(exclusive);
      NothingAccepted();
    } else {
      LastStep(steps, exclusive);
      AlwaysInTime(steps[..|steps| - 1], exclusive);
      InTimeStep(Run(steps[..|steps| - 1], exclusive), steps[|steps| - 1]);
    }
  }

  lemma NothingAccepted()
    ensures InTime(NOTHING)
  {
  }

  /** The h-th handshake's code passed the checks and isn't committed yet. */
  predicate Accepting(w: World, h: nat, a: Url, secret: string) {
    CheckedIn(w, h) && w.doing[h].y == a && w.doing[h].secret == secret
  }

  /** Two accepts of the code are both between their checks and their commit. */
  ghost predicate TwoAccepting(w: World, a: Url, secret: string) {
    exists h, k :: h != k && Accepting(w, h, a, secret) && Accepting(w, k, a, secret)
  }

  /** At some point of the run, two accepts of the code overlapped. */
  ghost predicate Overlapped(steps: seq<Step>, exclusive: bool, a: Url, secret: string) {
    exists i :: 0 <= i <= |steps| && OverlapsAt(steps, i, exclusive, a, secret)
  }

  ghost predicate OverlapsAt(steps: seq<Step>, i: nat, exclusive: bool, a: Url, secret: string) {
    i <= |steps| && Legal(steps[..i], exclusive) && TwoAccepting(Run(steps[..i], exclusive), a, secret)
  }

  ghost predicate AcceptedOf(w: World, a: Url, secret: string, i: nat) {
    i < |w.accepted| && w.accepted[i].inviter == a && w.accepted[i].secret == secret
  }

  ghost predicate AcceptedTwice(w: World, a: Url, secret: string) {
    exists i: nat, j: nat :: i < j && AcceptedOf(w, a, secret, i) && AcceptedOf(w, a, secret, j)
  }

  predicate Used(w: World, a: Url, secret: string) {
    (a, secret) in w.invites && w.invites[(a, secret)].used
  }

  /** How a code gets used, and accepted a second time: only by a commit, of an accept of it. */
  lemma UsedStep(w: World, s: Step, a: Url, secret: string)
    requires InTime(w) && Can(w, s)
    ensures var w' := Do(w, s);
            && (Used(w, a, secret) ==> Used(w', a, secret))
            && (Used(w', a, secret) && !Used(w, a, secret) ==> s.CommitAccept? && Accepting(w, s.h, a, secret))
            && (AcceptedTwice(w', a, secret) && !AcceptedTwice(w, a, secret) ==>
                  s.CommitAccept? && Accepting(w, s.h, a, secret) && Used(w, a, secret))
  {
    hide Judge;
    var w' := Do(w, s);
    assert w.accepted <= w'.accepted;
    if i: nat, j: nat :| i < j && AcceptedOf(w', a, secret, i) && AcceptedOf(w', a, secret, j) {
      if j < |w.accepted| {
        assert AcceptedOf(w, a, secret, i) && AcceptedOf(w, a, secret, j);
      } else {
        assert AcceptedOf(w, a, secret, i);
      }
    }
  }

  /** What is being accepted after a step was before it, unless the step is its check, of an unused code. */
  lemma AcceptingStep(w: World, s: Step, h: nat, a: Url, secret: string)
    requires Can(w, s) && Accepting(Do(w, s), h, a, secret)
    ensures Accepting(w, h, a, secret) || (s.CheckCode? && s.h == h && !Used(Do(w, s), a, secret))
    ensures s.CommitAccept? ==> s.h != h
  {
  }

  lemma OverlapStays(steps: seq<Step>, exclusive: bool, a: Url, secret: string)
    requires steps != [] && Overlapped(steps[..|steps| - 1], exclusive, a, secret)
    ensures Overlapped(steps, exclusive, a, secret)
  {
    var front := steps[..|steps| - 1];
    var i :| 0 <= i <= |front| && OverlapsAt(front, i, exclusive, a, secret);
    assert front[..i] == steps[..i];
    assert OverlapsAt(steps, i, exclusive, a, secret);
  }

  lemma OverlapNow(steps: seq<Step>, exclusive: bool, h: nat, k: nat, a: Url, secret: string)
    requires steps != [] && Legal(steps[..|steps| - 1], exclusive) && h != k
    requires var w := Run(steps[..|steps| - 1], exclusive); Accepting(w, h, a, secret) && Accepting(w, k, a, secret)
    ensures Overlapped(steps, exclusive, a, secret)
  {
    hide Run, Legal, Accepting;
    assert OverlapsAt(steps, |steps| - 1, exclusive, a, secret);
  }

  /** An accept of a code that is used by now overlaps another one. */
  lemma {:induction false} AcceptingUsed(steps: seq<Step>, exclusive: bool, h: nat, a: Url, secret: string)
    requires Legal(steps, exclusive)
    requires Accepting(Run(steps, exclusive), h, a, secret) && Used(Run(steps, exclusive), a, secret)
    ensures Overlapped(steps, exclusive, a, secret)
  {
    hide Can, Alone, Do, Legal, Run, Accepting, Used, Overlapped, InTime;
    if steps == [] {
      NoSteps(exclusive);
      NoneAccepting(h, a, secret);
    } else {
      var (front, s) := (steps[..|steps| - 1], steps[|steps| - 1]);
      LastStep(steps, exclusive);
      var w := Run(front, exclusive);
      AlwaysInTime(front, exclusive);
      AcceptingStep(w, s, h, a, secret);
      UsedStep(w, s, a, secret);
      if Used(w, a, secret) {
        AcceptingUsed(front, exclusive, h, a, secret);
        OverlapStays(steps, exclusive, a, secret);
      } else {
        OverlapNow(steps, exclusive, h, s.h, a, secret);
      }
    }
  }

  lemma NoneAccepting(h: nat, a: Url, secret: string)
    ensures !Accepting(NOTHING, h, a, secret) && !AcceptedTwice(NOTHING, a, secret)
  {
  }

  /** In every run, whatever overlaps and whatever stops when: a code is accepted only if it was checked at most
      an hour after it was made, from another stack with an https address, and a second time only when two accepts
      of it overlapped. */
  lemma {:induction false} CodesAreGoodOnce(steps: seq<Step>, exclusive: bool, a: Url, secret: string)
    requires Legal(steps, exclusive)
    ensures InTime(Run(steps, exclusive))
    ensures AcceptedTwice(Run(steps, exclusive), a, secret) ==> Overlapped(steps, exclusive, a, secret)
  {
    hide Can, Alone, Do, Legal, Run, Accepting, Used, Overlapped, InTime, AcceptedTwice;
    AlwaysInTime(steps, exclusive);
    if steps == [] {
      NoSteps(exclusive);
      NoneAccepting(0, a, secret);
    } else {
      var (front, s) := (steps[..|steps| - 1], steps[|steps| - 1]);
      LastStep(steps, exclusive);
      CodesAreGoodOnce(front, exclusive, a, secret);
      UsedStep(Run(front, exclusive), s, a, secret);
      if AcceptedTwice(Run(steps, exclusive), a, secret) {
        if !AcceptedTwice(Run(front, exclusive), a, secret) {
          AcceptingUsed(front, exclusive, s.h, a, secret);
        }
        OverlapStays(steps, exclusive, a, secret);
      }
    }
  }

  predicate Made(steps: seq<Step>, a: Url, secret: string, t: int) {
    exists i :: 0 <= i < |steps| && steps[i] == MakeInvite(a, secret, t)
  }

  /** What the stored invite says is what happened: when the code was made, and whether it was accepted. */
  ghost predicate InviteSays(w: World, steps: seq<Step>, a: Url, secret: string) {
    && (forall t :: Made(steps, a, secret, t) <==> (a, secret) in w.invites && w.invites[(a, secret)].madeAt == t)
    && ((a, secret) in w.invites ==>
          (w.invites[(a, secret)].used <==> exists i: nat :: AcceptedOf(w, a, secret, i)))
    && ((a, secret) !in w.invites ==> forall i: nat :: !AcceptedOf(w, a, secret, i))
  }

  lemma InviteStep(w: World, steps: seq<Step>, s: Step, a: Url, secret: string)
    requires InviteSays(w, steps, a, secret) && Can(w, s)
    ensures InviteSays(Do(w, s), steps + [s], a, secret)
  {
    hide Judge, CalledBy, Idle;
    var w' := Do(w, s);
    forall t ensures Made(steps + [s], a, secret, t) <==> Made(steps, a, secret, t) || s == MakeInvite(a, secret, t) {
      if i :| 0 <= i < |steps| && steps[i] == MakeInvite(a, secret, t) {
        assert (steps + [s])[i] == steps[i];
      }
      assert (steps + [s])[|steps|] == s;
    }
    assert w.accepted <= w'.accepted;
    forall i: nat ensures AcceptedOf(w', a, secret, i)
        <==> AcceptedOf(w, a, secret, i)
             || (i == |w.accepted| && s.CommitAccept? && w.doing[s.h].y == a && w.doing[s.h].secret == secret)
    {
    }
    if s.CommitAccept? && w.doing[s.h].y == a && w.doing[s.h].secret == secret {
      assert AcceptedOf(w', a, secret, |w.accepted|);
    }
  }

  lemma {:induction false} InvitesSay(steps: seq<Step>, exclusive: bool, a: Url, secret: string)
    requires Legal(steps, exclusive)
    ensures InviteSays(Run(steps, exclusive), steps, a, secret)
  {
    hide Can, Alone, Do, Legal, Run, InviteSays;
    if steps == [] {
      NoSteps(exclusive);
      NothingInvited(a, secret);
    } else {
      var (front, s) := (steps[..|steps| - 1], steps[|steps| - 1]);
      LastStep(steps, exclusive);
      InvitesSay(front, exclusive, a, secret);
      InviteStep(Run(front, exclusive), front, s, a, secret);
      assert front + [s] == steps;
    }
  }

  lemma NothingInvited(a: Url, secret: string)
    ensures InviteSays(NOTHING, [], a, secret)
  {
  }

  /** At any point of any run, the checks pass exactly for a code that was made here at most an hour ago and never
      accepted, from another stack with an https address, not linked yet, whose CA can be read. */
  lemma AcceptsExactly(steps: seq<Step>, exclusive: bool, act: Activity, now: int)
    requires Legal(steps, exclusive) && act.Joining?
    ensures var w := Run(steps, exclusive);
            Judge(w, act, now) == Fine
            <==> && (exists t :: Made(steps, act.y, act.secret, t) && now <= t + INVITE_TTL)
                 && (forall i: nat :: !AcceptedOf(w, act.y, act.secret, i))
                 && IsHttps(act.x) && act.x != act.y && (act.y, act.x) !in w.links && act.ca.Ca?
  {
    hide Legal, Run, Made, AcceptedOf;
    InvitesSay(steps, exclusive, act.y, act.secret);
    var (w, code) := (Run(steps, exclusive), (act.y, act.secret));
    if code in w.invites {
      assert Made(steps, act.y, act.secret, w.invites[code].madeAt);
    }
  }

  /** Each refusal is for its own reason. */
  lemma RefusalIsReal(w: World, act: Activity, now: int)
    requires act.Joining?
    ensures match Judge(w, act, now)
            case Fine => true
            case InvalidCode =>
              (act.y, act.secret) in w.invites ==>
                w.invites[(act.y, act.secret)].used || now - w.invites[(act.y, act.secret)].madeAt > INVITE_TTL
            case NeedsOwnHttps => !IsHttps(act.x) || act.x == act.y
            case LinkedAlready => (act.y, act.x) in w.links
            case NotACa => act.ca == NotACertificate
  {
  }

  lemma Extend(steps: seq<Step>, s: Step, exclusive: bool) returns (more: seq<Step>)
    requires Legal(steps, exclusive) && Takes(Run(steps, exclusive), s, exclusive)
    ensures steps <= more && Legal(more, exclusive) && Run(more, exclusive) == Do(Run(steps, exclusive), s)
  {
    OneMore(steps, s, exclusive);
    more := steps + [s];
  }

  /** And it is exact: whenever two accepts of a code overlap, for two joiners not linked yet, nothing keeps both
      from being committed. */
  lemma OverlapAcceptsTwice(steps: seq<Step>, exclusive: bool, h: nat, k: nat, a: Url, secret: string)
    requires Legal(steps, exclusive)
    requires var w := Run(steps, exclusive);
             && Accepting(w, h, a, secret) && Accepting(w, k, a, secret) && w.doing[h].x != w.doing[k].x
             && (a, w.doing[h].x) !in w.links && (a, w.doing[k].x) !in w.links
    ensures exists more :: steps <= more && Legal(more, exclusive) && AcceptedTwice(Run(more, exclusive), a, secret)
  {
    hide Legal, Run;
    var w := Run(steps, exclusive);
    AlwaysInTime(steps, exclusive);
    var more := Extend(steps, CommitAccept(h, 0), exclusive);
    var more' := Extend(more, CommitAccept(k, 0), exclusive);
    var w' := Run(more', exclusive);
    var n := |w.accepted|;
    assert AcceptedOf(w', a, secret, n) && AcceptedOf(w', a, secret, n + 1);
  }

  lemma TwoPosted() returns (s: seq<Step>)
    ensures Legal(s, true)
    ensures var (w, a, b, c, ca) := (Run(s, true), "https://a", "https://b", "https://c", Ca("c"));
            && w.links == map[] && w.invites == map[(a, "1") := Invite(0, false)]
            && w.doing == map[0 := Joining(b, a, "1", Token(b, a, 0), "f", ca, Posted, true),
                              1 := Joining(c, a, "1", Token(c, a, 0), "f", ca, Posted, true)]
  {
    hide Reached;
    s := [];
    assert Legal(s, true) && Run(s, true) == NOTHING by { NoSteps(true); }
    s := Extend(s, MakeInvite("https://a", "1", 0), true);
    s := Extend(s, StartJoin(0, "https://b", "https://a", "1", 0, "f", Ca("c")), true);
    s := Extend(s, StartJoin(1, "https://c", "https://a", "1", 0, "f", Ca("c")), true);
  }

  /** Two stacks that post one code at the same time, each to link with the stack that made it, can both be
      linked: nothing locks the invite between its check and the commit. */
  lemma OneCodeTwoJoiners()
    ensures exists steps :: Legal(steps, true) && AcceptedTwice(Run(steps, true), "https://a", "1")
  {
    hide Reached, Legal, Run, Idle, CalledBy;
    var s := TwoPosted();
    s := Extend(s, CheckCode(0, 0), true);
    s := Extend(s, CheckCode(1, 0), true);
    OverlapAcceptsTwice(s, true, 0, 1, "https://a", "1");
  }

  // --- tokens match -------------------------------------------------------------------------

  /** If both hold a record of the other, the token x calls y with is the one y's record is for. */
  ghost predicate Matched(w: World, x: Url, y: Url) {
    (x, y) in w.links && (y, x) in w.links && (x, y) in w.outbound ==> w.links[(y, x)].hash == Sha(w.outbound[(x, y)])
  }

  /** What an unfinished handshake or removal has put in place, or taken away, so far. */
  ghost predicate SoFar(w: World, act: Activity) {
    var (x, y) := (act.x, act.y);
    && x != y
    && (act.Joining? ==>
          && act.mine.madeBy == x && act.mine.madeFor == y
          && (act.phase.Posted? || act.phase.Checked? ==> (x, y) !in w.links)
          && (act.phase.Accepted? || act.phase.Answered? || act.phase.Joined? ==>
                (y, x) in w.links && w.links[(y, x)].hash == Sha(act.phase.theirs))
          && (act.phase.Accepted? ==> (x, y) !in w.links && (y, x) !in w.outbound)
          && (act.phase.Answered? ==> (x, y) !in w.links && Stored(w, y, x) == Some(act.mine))
          && (act.phase.Joined? ==> (x, y) in w.links && w.links[(x, y)].hash == Sha(act.mine)
                                    && Stored(w, y, x) == Some(act.mine) && (x, y) !in w.outbound))
    && (act.Removing? ==>
          && (act.remover.DropsLink? ==> (x, y) !in w.outbound)
          && (act.call.LinkLeft? ==> (y, x) !in w.outbound))
  }

  /** One ordered pair's links and tokens. */
  ghost predicate PairInv(w: World, x: Url, y: Url) {
    && Matched(w, x, y)
    && ((x, y) in w.outbound ==> (x, y) in w.links && w.outbound[(x, y)].madeBy == y && w.outbound[(x, y)].madeFor == x)
    && ((x, y) in w.links ==> x != y && w.links[(x, y)].hash.of.madeBy == x && w.links[(x, y)].hash.of.madeFor == y)
  }

  /** What is going on between two stacks: one thing at most, and it has done what it should have so far. */
  ghost predicate OneAtATime(w: World, x: Url, y: Url) {
    && (forall h, k :: h in w.doing && k in w.doing && Between(w.doing[h], x, y) && Between(w.doing[k], x, y) ==>
          h == k)
    && forall h :: h in w.doing && Between(w.doing[h], x, y) ==> SoFar(w, w.doing[h])
  }

  ghost predicate Orderly(w: World, x: Url, y: Url) {
    PairInv(w, x, y) && PairInv(w, y, x) && OneAtATime(w, x, y)
  }

  /** The two stacks a step is about. */
  function Ends(w: World, s: Step): Option<(Url, Url)> {
    match s
    case MakeInvite(_, _, _) => None
    case StartJoin(_, b, a, _, _, _, _) => Some((b, a))
    case StartRemove(_, x, y) => Some((x, y))
    case _ => if s.h in w.doing then Some((w.doing[s.h].x, w.doing[s.h].y)) else None
  }

  /** Both directions between two stacks, and what goes on between them, look the same in both worlds. */
  ghost predicate SamePair(w: World, w': World, x: Url, y: Url) {
    && (forall p :: p in {(x, y), (y, x)} ==>
          && (p in w.links <==> p in w'.links) && (p in w.links ==> w.links[p] == w'.links[p])
          && (p in w.outbound <==> p in w'.outbound) && (p in w.outbound ==> w.outbound[p] == w'.outbound[p]))
    && forall h :: h in w'.doing && Between(w'.doing[h], x, y) ==> h in w.doing && w.doing[h] == w'.doing[h]
  }

  predicate StartStep(s: Step) {
    s.MakeInvite? || s.StartJoin? || s.StartRemove?
  }

  predicate InviterStep(s: Step) {
    s.CheckCode? || s.CommitAccept? || s.StoreAtInviter? || s.InviterStops?
  }

  predicate JoinerStep(s: Step) {
    s.CommitAtJoiner? || s.StoreAtJoiner? || s.JoinerStops?
  }

  predicate RemoverStep(s: Step) {
    s.RemoverGoesOn? || s.DropSecret? || s.DropLink? || s.RemoverStops?
  }

  predicate PeerStep(s: Step) {
    s.PeerRecognises? || s.PeerDropsSecret? || s.PeerDropsItsLink? || s.PeerStops?
  }

  lemma EveryStep(s: Step)
    ensures StartStep(s) || InviterStep(s) || JoinerStep(s) || RemoverStep(s) || PeerStep(s)
  {
  }

  predicate Elsewhere(w: World, s: Step, x: Url, y: Url) {
    Ends(w, s) != Some((x, y)) && Ends(w, s) != Some((y, x))
  }

  lemma StartElsewhere(w: World, s: Step, x: Url, y: Url)
    requires Can(w, s) && StartStep(s) && Elsewhere(w, s, x, y)
    ensures SamePair(w, Do(w, s), x, y)
  {
  }

  lemma InviterElsewhere(w: World, s: Step, x: Url, y: Url)
    requires Can(w, s) && InviterStep(s) && Elsewhere(w, s, x, y)
    ensures SamePair(w, Do(w, s), x, y)
  {
    hide Judge;
  }

  lemma JoinerElsewhere(w: World, s: Step, x: Url, y: Url)
    requires Can(w, s) && JoinerStep(s) && Elsewhere(w, s, x, y)
    ensures SamePair(w, Do(w, s), x, y)
  {
  }

  lemma RemoverElsewhere(w: World, s: Step, x: Url, y: Url)
    requires Can(w, s) && RemoverStep(s) && Elsewhere(w, s, x, y)
    ensures SamePair(w, Do(w, s), x, y)
  {
  }

  lemma PeerElsewhere(w: World, s: Step, x: Url, y: Url)
    requires Can(w, s) && PeerStep(s) && Elsewhere(w, s, x, y)
    ensures SamePair(w, Do(w, s), x, y)
  {
    hide CalledBy;
  }

  lemma ElsewhereUntouched(w: World, s: Step, x: Url, y: Url)
    requires Can(w, s) && Elsewhere(w, s, x, y)
    ensures SamePair(w, Do(w, s), x, y)
  {
    hide Can, Alone, Do, SamePair, Elsewhere;
    EveryStep(s);
    if StartStep(s) {
      StartElsewhere(w, s, x, y);
    } else if InviterStep(s) {
      InviterElsewhere(w, s, x, y);
    } else if JoinerStep(s) {
      JoinerElsewhere(w, s, x, y);
    } else if RemoverStep(s) {
      RemoverElsewhere(w, s, x, y);
    } else {
      PeerElsewhere(w, s, x, y);
    }
  }

  lemma SamePairOrderly(w: World, w': World, x: Url, y: Url)
    requires SamePair(w, w', x, y) && Orderly(w, x, y)
    ensures Orderly(w', x, y)
  {
    assert (x, y) in {(x, y), (y, x)} && (y, x) in {(x, y), (y, x)};
  }

  /** A step that starts something between two stacks nothing goes on between. */
  lemma StartKeeps(w: World, s: Step, x: Url, y: Url)
    requires StartStep(s) && Takes(w, s, true)
    requires Ends(w, s) == Some((x, y)) && Orderly(w, x, y)
    ensures Orderly(Do(w, s), x, y)
  {
  }

  lemma OneHas(w: World, h: nat, x: Url, y: Url)
    requires OneAtATime(w, x, y) && h in w.doing && Between(w.doing[h], x, y)
    ensures SoFar(w, w.doing[h])
  {
  }

  lemma OnlyOwnActivity(w: World, s: Step)
    requires Can(w, s) && !StartStep(s)
    ensures forall k :: k in Do(w, s).doing && k != s.h ==> k in w.doing && Do(w, s).doing[k] == w.doing[k]
  {
    hide Judge, CalledBy;
  }

  lemma OneStill(w: World, w': World, h: nat, x: Url, y: Url)
    requires OneAtATime(w, x, y) && h in w.doing && Between(w.doing[h], x, y)
    requires forall k :: k in w'.doing && k != h ==> k in w.doing && w'.doing[k] == w.doing[k]
    requires h in w'.doing ==> SoFar(w', w'.doing[h])
    ensures OneAtATime(w', x, y)
  {
    hide SoFar;
  }

  lemma InviterKeeps(w: World, s: Step, x: Url, y: Url)
    requires InviterStep(s) && Can(w, s) && Ends(w, s) == Some((x, y)) && Orderly(w, x, y)
    ensures Orderly(Do(w, s), x, y)
  {
    hide OneAtATime, Judge, CalledBy;
    OneHas(w, s.h, x, y);
    OnlyOwnActivity(w, s);
    OneStill(w, Do(w, s), s.h, x, y);
  }

  lemma JoinerKeeps(w: World, s: Step, x: Url, y: Url)
    requires JoinerStep(s) && Can(w, s) && Ends(w, s) == Some((x, y)) && Orderly(w, x, y)
    ensures Orderly(Do(w, s), x, y)
  {
    hide OneAtATime, Judge, CalledBy;
    OneHas(w, s.h, x, y);
    OnlyOwnActivity(w, s);
    OneStill(w, Do(w, s), s.h, x, y);
  }

  lemma RemoverKeeps(w: World, s: Step, x: Url, y: Url)
    requires RemoverStep(s) && Can(w, s) && Ends(w, s) == Some((x, y)) && Orderly(w, x, y)
    ensures Orderly(Do(w, s), x, y)
  {
    hide OneAtATime, Judge, CalledBy;
    OneHas(w, s.h, x, y);
    OnlyOwnActivity(w, s);
    OneStill(w, Do(w, s), s.h, x, y);
  }

  lemma PeerKeeps(w: World, s: Step, x: Url, y: Url)
    requires PeerStep(s) && Can(w, s) && Ends(w, s) == Some((x, y)) && Orderly(w, x, y)
    ensures Orderly(Do(w, s), x, y)
  {
    hide OneAtATime, Judge, CalledBy;
    OneHas(w, s.h, x, y);
    OnlyOwnActivity(w, s);
    OneStill(w, Do(w, s), s.h, x, y);
  }

  lemma Swapped(w: World, x: Url, y: Url)
    requires Orderly(w, x, y)
    ensures Orderly(w, y, x)
  {
    hide SoFar, PairInv;
    assert forall h :: h in w.doing && Between(w.doing[h], y, x) ==> Between(w.doing[h], x, y);
  }

  lemma OwnStepKeeps(w: World, s: Step, x: Url, y: Url)
    requires Takes(w, s, true) && Ends(w, s) == Some((x, y)) && Orderly(w, x, y)
    ensures Orderly(Do(w, s), x, y)
  {
    hide Can, Alone, Do, Orderly;
    EveryStep(s);
    if StartStep(s) {
      StartKeeps(w, s, x, y);
    } else if InviterStep(s) {
      InviterKeeps(w, s, x, y);
    } else if JoinerStep(s) {
      JoinerKeeps(w, s, x, y);
    } else if RemoverStep(s) {
      RemoverKeeps(w, s, x, y);
    } else {
      PeerKeeps(w, s, x, y);
    }
  }

  lemma StepKeeps(w: World, s: Step, x: Url, y: Url)
    requires Takes(w, s, true) && Orderly(w, x, y)
    ensures Orderly(Do(w, s), x, y)
  {
    hide Can, Alone, Do, Orderly, SamePair, Ends, Idle;
    if Ends(w, s) == Some((x, y)) {
      OwnStepKeeps(w, s, x, y);
    } else if Ends(w, s) == Some((y, x)) {
      Swapped(w, x, y);
      OwnStepKeeps(w, s, y, x);
      Swapped(Do(w, s), y, x);
    } else {
      ElsewhereUntouched(w, s, x, y);
      SamePairOrderly(w, Do(w, s), x, y);
    }
  }

  lemma NothingOrderly(x: Url, y: Url)
    ensures Orderly(NOTHING, x, y)
  {
  }

  lemma {:induction false} AlwaysOrderly(steps: seq<Step>, x: Url, y: Url)
    requires Legal(steps, true)
    ensures Orderly(Run(steps, true), x, y)
  {
    hide Can, Alone, Do, Orderly, Legal, Run;
    if steps == [] {
      NoSteps(true);
      NothingOrderly(x, y);
    } else {
      LastStep(steps, true);
      AlwaysOrderly(steps[..|steps| - 1], x, y);
      StepKeeps(Run(steps[..|steps| - 1], true), steps[|steps| - 1], x, y);
    }
  }

  /** In every run where a pair's handshakes and removals don't overlap, at every point, whoever stopped
      where: when two stacks hold records of each other, each token one of them has stored for calling the
      other hashes to what the other's record has, and the other takes the call as coming from it, and
      from nobody else. */
  lemma TokensMatch(steps: seq<Step>, x: Url, y: Url)
    requires Legal(steps, true)
    ensures var w := Run(steps, true);
            (x, y) in w.links && (y, x) in w.links && (x, y) in w.outbound ==>
              && w.links[(y, x)].hash == Sha(w.outbound[(x, y)])
              && forall z :: CalledBy(w, y, w.outbound[(x, y)], z) <==> z == x
  {
    hide Reached, OneAtATime;
    AlwaysOrderly(steps, x, y);
    var w := Run(steps, true);
    if (x, y) in w.links && (y, x) in w.links && (x, y) in w.outbound {
      forall z ensures CalledBy(w, y, w.outbound[(x, y)], z) <==> z == x {
        AlwaysOrderly(steps, y, z);
      }
    }
  }

  /** Two stacks that have posted their codes to each other. */
  lemma BothPosted() returns (s: seq<Step>)
    ensures Legal(s, false)
    ensures var (w, a, b, ca) := (Run(s, false), "https://a", "https://b", Ca("c"));
            && w.links == map[] && w.outbound == map[]
            && w.invites == map[(a, "1") := Invite(0, false), (b, "2") := Invite(0, false)]
            && w.doing == map[0 := Joining(b, a, "1", Token(b, a, 0), "f", ca, Posted, true),
                              1 := Joining(a, b, "2", Token(a, b, 0), "f", ca, Posted, true)]
  {
    hide Reached;
    s := [];
    assert Legal(s, false) && Run(s, false) == NOTHING by { NoSteps(false); }
    var (a, b, ca) := ("https://a", "https://b", Ca("c"));
    s := Extend(s, MakeInvite(a, "1", 0), false);
    s := Extend(s, MakeInvite(b, "2", 0), false);
    s := Extend(s, StartJoin(0, b, a, "1", 0, "f", ca), false);
    s := Extend(s, StartJoin(1, a, b, "2", 0, "f", ca), false);
  }

  lemma BothCommitted() returns (s: seq<Step>)
    ensures Legal(s, false)
    ensures var (w, a, b, ca) := (Run(s, false), "https://a", "https://b", Ca("c"));
            && w.links == map[(a, b) := Link(Sha(Token(a, b, 1)), "c"), (b, a) := Link(Sha(Token(b, a, 1)), "c")]
            && w.outbound == map[]
            && w.doing == map[0 := Joining(b, a, "1", Token(b, a, 0), "f", ca, Accepted(Token(a, b, 1)), true),
                              1 := Joining(a, b, "2", Token(a, b, 0), "f", ca, Accepted(Token(b, a, 1)), true)]
  {
    hide Reached, Legal, Run, Idle;
    s := BothPosted();
    s := Extend(s, CheckCode(0, 0), false);
    s := Extend(s, CheckCode(1, 0), false);
    s := Extend(s, CommitAccept(0, 1), false);
    s := Extend(s, CommitAccept(1, 1), false);
  }

  lemma BothStored() returns (s: seq<Step>)
    ensures Legal(s, false)
    ensures var (w, a, b, ca) := (Run(s, false), "https://a", "https://b", Ca("c"));
            && w.links == map[(a, b) := Link(Sha(Token(a, b, 1)), "c"), (b, a) := Link(Sha(Token(b, a, 1)), "c")]
            && w.outbound == map[(a, b) := Token(b, a, 0), (b, a) := Token(a, b, 0)]
            && w.doing == map[0 := Joining(b, a, "1", Token(b, a, 0), "f", ca, Answered(Token(a, b, 1)), true),
                              1 := Joining(a, b, "2", Token(a, b, 0), "f", ca, Answered(Token(b, a, 1)), true)]
  {
    hide Reached, Legal, Run, Idle;
    s := BothCommitted();
    s := Extend(s, StoreAtInviter(0), false);
    s := Extend(s, StoreAtInviter(1), false);
  }

  /** Two stacks that join each other at once, each with the other's code, end up, when both joins have stopped
      on the link that is already there, with records of each other whose tokens neither accepts: nothing stops
      the two handshakes from overlapping. */
  lemma OverlapMismatches()
    ensures exists steps ::
      && Legal(steps, false)
      && var w := Run(steps, false);
         && w.doing == map[]
         && ("https://a", "https://b") in w.links && ("https://b", "https://a") in w.links
         && !CallsThrough(w, "https://a", "https://b") && !CallsThrough(w, "https://b", "https://a")
  {
    hide Reached, Legal, Run, Idle;
    var s := BothStored();
    s := Extend(s, JoinerStops(0), false);
    s := Extend(s, JoinerStops(1), false);
  }

  /** x has a token for y, and y takes it as x's. */
  predicate CallsThrough(w: World, x: Url, y: Url) {
    (x, y) in w.outbound && CalledBy(w, y, w.outbound[(x, y)], x)
  }

  // --- the code, commit by commit -----------------------------------------------------------

  datatype JoinResult =
    | NotALinkCode | BadCode | OwnCode | AlreadyLinked | NoAnswer | NoCa | WrongCa | Unreachable
    | PeerRefused(why: Verdict) | Linked

  class Stacks {
    var w: World
    ghost var steps: seq<Step>
    ghost const exclusive: bool

    /** The world is what the steps taken so far lead to, if `exclusive` none of them overlapping for a pair.
        Stopping anywhere in a method leaves a world some prefix of its steps leads to. */
    ghost predicate Valid()
      reads this
    {
      Legal(steps, exclusive) && w == Run(steps, exclusive)
    }

    constructor (ghost exclusive: bool)
      ensures Valid() && w == NOTHING && this.exclusive == exclusive
    {
      w, steps, this.exclusive := NOTHING, [], exclusive;
    }

    method Commit(s: Step)
      requires Valid() && Takes(w, s, exclusive)
      modifies this
      ensures Valid() && w == Do(old(w), s) && steps == old(steps) + [s]
    {
      OneMore(steps, s, exclusive);
      w, steps := Do(w, s), steps + [s];
    }

    /** `invite` on a; the code's secret is one it hasn't used. */
    method MakeCode(a: Url, fingerprint: string, secret: string, now: int) returns (code: Pasted)
      requires Valid() && (a, secret) !in w.invites
      modifies this
      ensures Valid() && old(steps) <= steps && w == old(w).(invites := w.invites)
      ensures w.invites == old(w).invites[(a, secret) := Invite(now, false)]
      ensures code == Fields(a, fingerprint, secret)
    {
      Commit(MakeInvite(a, secret, now));
      code := Fields(a, fingerprint, secret);
    }

    /** `accept` on the inviter's side, for a posted handshake, with nothing else coming between. */
    method Accept(h: nat, n: nat, now: int) returns (why: Verdict)
      requires Valid() && JoiningIn(w, h) && w.doing[h].phase.Posted?
      modifies this
      ensures Valid() && old(steps) <= steps
      ensures why == Judge(old(w), old(w).doing[h], now)
      ensures why != Fine ==> w == old(w).(doing := old(w).doing - {h})
      ensures why == Fine ==>
        var act := old(w).doing[h];
        var (b, a, code) := (act.x, act.y, (act.y, act.secret));
        && w.links == old(w).links[(a, b) := Link(Sha(Token(a, b, n)), act.ca.fingerprint)]
        && w.outbound == old(w).outbound[(a, b) := act.mine]
        && w.invites == old(w).invites[code := old(w).invites[code].(used := true)]
        && w.doing == old(w).doing[h := act.(phase := Answered(Token(a, b, n)))]
        && w.accepted == old(w).accepted + [Acceptance(a, act.secret, b, now)]
    {
      hide Legal, Run, Idle, CalledBy;
      why := Judge(w, w.doing[h], now);
      if why != Fine {
        Commit(InviterStops(h));
        return;
      }
      ghost var act := w.doing[h];
      Commit(CheckCode(h, now));
      assert w.doing == old(w).doing[h := act.(phase := Checked(now))];
      Commit(CommitAccept(h, n));
      assert w.doing == old(w).doing[h := act.(phase := Phase.Accepted(Token(act.y, act.x, n)))];
      Commit(StoreAtInviter(h));
      assert w.doing == old(w).doing[h := act.(phase := Answered(Token(act.y, act.x, n)))];
    }

    /** The rest of `join`, once the inviter has answered. */
    method FinishJoin(h: nat)
      requires Valid() && JoiningIn(w, h) && w.doing[h].phase.Answered? && w.doing[h].alive
      requires (w.doing[h].x, w.doing[h].y) !in w.links
      modifies this
      ensures Valid() && old(steps) <= steps
      ensures var act := old(w).doing[h];
              var p := (act.x, act.y);
              w == old(w).(links := old(w).links[p := Link(Sha(act.mine), act.pinned)],
                           outbound := old(w).outbound[p := act.phase.theirs], doing := old(w).doing - {h})
    {
      hide Legal, Run, Judge, Idle, CalledBy;
      Commit(CommitAtJoiner(h));
      Commit(StoreAtJoiner(h));
      assert w.doing == old(w).doing - {h};
    }

    /** `join` on b from its call to a on. */
    method Post(h: nat, b: Url, a: Url, secret: string, pinned: string, ca: Pem, m: nat, n: nat, now: int)
      returns (why: Verdict)
      requires Valid() && h !in w.doing && a != b && (b, a) !in w.links && (exclusive ==> Idle(w, b, a))
      modifies this
      ensures Valid() && old(steps) <= steps && w.doing == old(w).doing
      ensures why == Judge(old(w), Joining(b, a, secret, Token(b, a, m), pinned, ca, Posted, true), now)
      ensures why != Fine ==> w == old(w)
      ensures why == Fine ==>
        && w.links == old(w).links[(a, b) := Link(Sha(Token(a, b, n)), ca.fingerprint)]
                                  [(b, a) := Link(Sha(Token(b, a, m)), pinned)]
        && w.outbound == old(w).outbound[(a, b) := Token(b, a, m)][(b, a) := Token(a, b, n)]
        && w.invites == old(w).invites[(a, secret) := old(w).invites[(a, secret)].(used := true)]
    {
      hide Legal, Run, CalledBy;
      Commit(StartJoin(h, b, a, secret, m, pinned, ca));
      ghost var act := Joining(b, a, secret, Token(b, a, m), pinned, ca, Posted, true);
      assert w.doing == old(w).doing[h := act];
      JudgeSame(old(w), w, act, now);
      why := Accept(h, n, now);
      if why == Fine {
        FinishJoin(h);
      }
      assert w.doing == old(w).doing;
    }

    /** `join` on b, with nobody stopping: `fetched` is what the code's stack gives as its CA root, if it
        answers, `ca` b's own, `posted` whether the call gets through; m and n make the two tokens. */
    method JoinWith(h: nat, b: Url, code: Pasted, fetched: Option<Pem>, ca: Pem, posted: bool, m: nat, n: nat, now: int)
      returns (r: JoinResult)
      requires Valid() && h !in w.doing && (exclusive && ParseCode(code).Code? ==> Idle(w, b, ParseCode(code).url))
      modifies this
      ensures Valid() && old(steps) <= steps && w.doing == old(w).doing
      ensures r != Linked ==> w == old(w)
      ensures r == NotALinkCode <==> ParseCode(code) == NotACode
      ensures r == BadCode <==> ParseCode(code) == DamagedCode
      ensures ParseCode(code).Code? ==>
        var Code(a, fp, secret) := ParseCode(code);
        var act := Joining(b, a, secret, Token(b, a, m), fp, ca, Posted, true);
        && r == (if a == b then OwnCode
                 else if (b, a) in old(w).links then AlreadyLinked
                 else if fetched == None then NoAnswer
                 else if fetched.value == NotACertificate then NoCa
                 else if fetched.value.fingerprint != fp then WrongCa
                 else if !posted then Unreachable
                 else if Judge(old(w), act, now) != Fine then PeerRefused(Judge(old(w), act, now))
                 else Linked)
        && (r == Linked ==>
              && w.links == old(w).links[(a, b) := Link(Sha(Token(a, b, n)), ca.fingerprint)]
                                        [(b, a) := Link(Sha(Token(b, a, m)), fp)]
              && w.outbound == old(w).outbound[(a, b) := Token(b, a, m)][(b, a) := Token(a, b, n)]
              && w.invites == old(w).invites[(a, secret) := old(w).invites[(a, secret)].(used := true)])
    {
      hide Legal, Run, CalledBy, ParseCode, Judge, Idle;
      var c := ParseCode(code);
      if c == NotACode {
        return NotALinkCode;
      }
      if c == DamagedCode {
        return BadCode;
      }
      var (a, fp) := (c.url, c.fingerprint);
      if a == b {
        return OwnCode;
      }
      if (b, a) in w.links {
        return AlreadyLinked;
      }
      if fetched == None {
        return NoAnswer;
      }
      if fetched.value == NotACertificate {
        return NoCa;
      }
      if fetched.value.fingerprint != fp {
        return WrongCa;
      }
      if !posted {
        return Unreachable;
      }
      var why := Post(h, b, a, c.secret, fp, ca, m, n, now);
      return if why == Fine then Linked else PeerRefused(why);
    }

    /** `remove` with tell_peer=False: the remover's side goes. */
    method DropSide(h: nat)
      requires Valid() && RemovingIn(w, h) && w.doing[h].remover.Told? && w.doing[h].call.Over?
      modifies this
      ensures Valid() && old(steps) <= steps
      ensures var p := (old(w).doing[h].x, old(w).doing[h].y);
              w == old(w).(links := old(w).links - {p}, outbound := old(w).outbound - {p}, doing := old(w).doing - {h})
    {
      hide Legal, Run, Judge, Idle, CalledBy;
      Commit(DropSecret(h));
      Commit(DropLink(h));
      assert w.doing == old(w).doing - {h};
    }

    /** The peer is told when the remover has a token and the call gets through, and drops its side when it
        takes the call as the remover's. */
    method TellPeer(h: nat, reached: bool) returns (both: bool)
      requires Valid() && RemovingIn(w, h) && w.doing[h].remover.Telling?
      requires w.doing[h].call.Sent? || w.doing[h].call.Over?
      modifies this
      ensures Valid() && old(steps) <= steps
      ensures var act := old(w).doing[h];
              && both == (reached && act.call.Sent? && CalledBy(old(w), act.y, act.call.token, act.x))
              && w == old(w).(links := if both then old(w).links - {(act.y, act.x)} else old(w).links,
                              outbound := if both then old(w).outbound - {(act.y, act.x)} else old(w).outbound,
                              doing := old(w).doing[h := act.(remover := Told, call := Over)])
    {
      hide Legal, Run, Judge, Idle, CalledBy;
      var act := w.doing[h];
      both := reached && act.call.Sent? && CalledBy(w, act.y, act.call.token, act.x);
      if both {
        PeerLeaves(h);
      } else {
        Commit(PeerStops(h));
        assert w.doing == old(w).doing[h := act.(call := Over)];
      }
      Commit(RemoverGoesOn(h));
      assert w.doing == old(w).doing[h := act.(remover := Told, call := Over)];
    }

    /** The peer's `leave`, called with a token it takes as the remover's. */
    method PeerLeaves(h: nat)
      requires Valid() && RemovingIn(w, h) && w.doing[h].remover.Telling? && w.doing[h].call.Sent?
      requires CalledBy(w, w.doing[h].y, w.doing[h].call.token, w.doing[h].x)
      modifies this
      ensures Valid() && old(steps) <= steps
      ensures var act := old(w).doing[h];
              var p := (act.y, act.x);
              w == old(w).(links := old(w).links - {p}, outbound := old(w).outbound - {p},
                           doing := old(w).doing[h := act.(call := Over)])
    {
      hide Legal, Run, Judge, Idle;
      ghost var act := w.doing[h];
      Commit(PeerRecognises(h));
      assert w.doing == old(w).doing[h := act.(call := Recognised)];
      Commit(PeerDropsSecret(h));
      assert w.doing == old(w).doing[h := act.(call := LinkLeft)];
      Commit(PeerDropsItsLink(h));
      assert w.doing == old(w).doing[h := act.(call := Over)];
    }

    /** `remove` on x of its link with y. */
    method Unlink(h: nat, x: Url, y: Url, reached: bool)
      requires Valid() && h !in w.doing && (x, y) in w.links && (exclusive ==> Idle(w, x, y))
      modifies this
      ensures Valid() && old(steps) <= steps && w.doing == old(w).doing && w.invites == old(w).invites
      ensures var both := reached && CallsThrough(old(w), x, y);
              var gone := if both then {(x, y), (y, x)} else {(x, y)};
              w.links == old(w).links - gone && w.outbound == old(w).outbound - gone
    {
      hide Legal, Run, Judge;
      Commit(StartRemove(h, x, y));
      var both := TellPeer(h, reached);
      DropSide(h);
      assert w.doing == old(w).doing;
      ghost var gone := if both then {(x, y), (y, x)} else {(x, y)};
      assert w.links == old(w).links - gone && w.outbound == old(w).outbound - gone;
    }
  }

  lemma JudgeSame(w: World, w': World, act: Activity, now: int)
    requires act.Joining? && w'.links == w.links && w'.invites == w.invites
    ensures Judge(w', act, now) == Judge(w, act, now)
  {
  }
}
