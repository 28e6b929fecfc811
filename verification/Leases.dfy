/** Environment leases: reminders before the end, a shutdown at the end, a destroy after the grace period,
    and what extends or restarts a lease. Times are in microseconds. */
module Leases {
  import opened Wrappers
  import opened Sequences

  const DAY: int := 86_400_000_000

  datatype Settings = Settings(enabled: bool, defaultDays: nat, maxDays: nat, remindDays: seq<nat>, graceDays: nat,
                               destroys: bool)

  datatype Status = Deployed | Destroying | OtherStatus

  /** `lease_state`: the thresholds reminded of, and when the end of the lease was acted on. */
  datatype Progress = Progress(reminded: set<nat>, stoppedAt: Option<int>, destroyStarted: bool)

  const FRESH := Progress({}, None, false)

  datatype Env = Env(expires: Option<int>, status: Status, lease: Progress)

  // --- setting a lease ----------------------------------------------------------------------

  datatype Request = Days(days: int) | Until(end: int) | Clear | Nothing

  function Later(a: int, b: int): int {
    if a > b then a else b
  }

  /** The new end of a lease (None is no end), or an error. */
  datatype NewEnd = End(end: Option<int>) | AdminsOnly | NotInFuture | TooShort | TooLong

  function NewEndFor(cfg: Settings, e: Env, r: Request, admin: bool, now: int): NewEnd {
    match r
    case Clear => if admin then End(None) else AdminsOnly
    case Until(end) => if !admin then AdminsOnly else if end <= now then NotInFuture else End(Some(end))
    case Nothing => TooShort
    case Days(days) =>
      if days < 1 then TooShort
      else
        var end := Later(now, if e.expires.Some? then e.expires.value else now) + days * DAY;
        if end > now + cfg.maxDays * DAY && !admin then TooLong else End(Some(end))
  }

  // --- a tick -------------------------------------------------------------------------------

  /** What a tick does for one environment, at most one thing. */
  datatype Action = Remind(passed: set<nat>) | ShutDown | Destroy

  function Due(cfg: Settings, left: int): set<nat> {
    set d | d in cfg.remindDays && left <= d * DAY
  }

  function TickOne(cfg: Settings, e: Env, now: int, busy: bool): (Env, Option<Action>) {
    if !cfg.enabled || e.expires == None || e.status != Deployed then (e, None)
    else
      var end := e.expires.value;
      if now < end then
        var due := Due(cfg, end - now);
        if due <= e.lease.reminded then (e, None)
        else (e.(lease := e.lease.(reminded := e.lease.reminded + due)), Some(Remind(due - e.lease.reminded)))
      else if busy then (e, None)
      else if e.lease.stoppedAt == None then (e.(lease := e.lease.(stoppedAt := Some(now))), Some(ShutDown))
      else if cfg.destroys && now >= end + cfg.graceDays * DAY && !e.lease.destroyStarted then
        (e.(status := Destroying, lease := e.lease.(destroyStarted := true)), Some(Destroy))
      else (e, None)
  }

  /** What a tick does for the first k environments, in order. */
  function Done(cfg: Settings, envs: seq<Env>, now: int, busy: set<nat>, k: nat): seq<(nat, Action)>
    requires k <= |envs|
  {
    if k == 0 then []
    else
      var (before, act) := (Done(cfg, envs, now, busy, k - 1), TickOne(cfg, envs[k - 1], now, k - 1 in busy).1);
      if act.Some? then before + [(k - 1, act.value)] else before
  }

  class Environments {
    var envs: seq<Env>

    constructor (envs: seq<Env>)
      ensures this.envs == envs
    {
      this.envs := envs;
    }

    /** `tick`: `busy` are the environments with a queued or running job. */
    method Tick(cfg: Settings, now: int, busy: set<nat>) returns (done: seq<(nat, Action)>)
      modifies this
      ensures |envs| == |old(envs)| && done == Done(cfg, old(envs), now, busy, |envs|)
      ensures forall i :: 0 <= i < |envs| ==> envs[i] == TickOne(cfg, old(envs)[i], now, i in busy).0
    {
      done := [];
      ghost var start := envs;
      if !cfg.enabled {
        NothingDone(cfg, envs, now, busy, |envs|);
        return;
      }
      for i := 0 to |envs|
        invariant |envs| == |start| && done == Done(cfg, start, now, busy, i)
        invariant forall j :: 0 <= j < i ==> envs[j] == TickOne(cfg, start[j], now, j in busy).0
        invariant forall j :: i <= j < |envs| ==> envs[j] == start[j]
      {
        var (e, act) := TickOne(cfg, envs[i], now, i in busy);
        envs := envs[i := e];
        if act.Some? {
          done := done + [(i, act.value)];
        }
      }
    }

    /** `set_lease` */
    method SetLease(cfg: Settings, i: nat, r: Request, admin: bool, now: int) returns (result: NewEnd)
      requires i < |envs|
      modifies this
      ensures result == NewEndFor(cfg, old(envs)[i], r, admin, now)
      ensures envs == if !result.End? then old(envs)
                      else old(envs)[i := old(envs)[i].(expires := result.end, lease := FRESH)]
    {
      result := NewEndFor(cfg, envs[i], r, admin, now);
      if result.End? {
        envs := envs[i := envs[i].(expires := result.end, lease := FRESH)];
      }
    }
  }

  lemma {:induction false} NothingDone(cfg: Settings, envs: seq<Env>, now: int, busy: set<nat>, k: nat)
    requires !cfg.enabled && k <= |envs|
    ensures Done(cfg, envs, now, busy, k) == []
  {
    if k > 0 {
      NothingDone(cfg, envs, now, busy, k - 1);
    }
  }

  // --- the life of one environment ----------------------------------------------------------

  /** Ticks, lease changes, deploying a destroyed or new environment again (which starts a lease), and
      whatever the job runner does to the status. Settings may change between events. */
  datatype Event =
    | Tick(cfg: Settings, now: int, busy: bool)
    | SetLease(cfg: Settings, request: Request, admin: bool, now: int)
    | FreshDeploy(cfg: Settings, now: int)
    | StatusIs(status: Status)

  /** What was done, when, in which term of the lease, when that term ends, and whether a job of the
      environment's was queued or running. */
  datatype Entry = Entry(term: nat, at: int, end: int, act: Action, cfg: Settings, busy: bool)

  /** An environment and its history; each new lease is a new term. */
  datatype Life = Life(env: Env, term: nat, log: seq<Entry>)

  function Next(l: Life, ev: Event): Life {
    match ev
    case Tick(cfg, now, busy) =>
      var (e, act) := TickOne(cfg, l.env, now, busy);
      if act == None then l.(env := e)
      else
        var end := if e.expires.Some? then e.expires.value else now;
        l.(env := e, log := l.log + [Entry(l.term, now, end, act.value, cfg, busy)])
    case SetLease(cfg, r, admin, now) =>
      var result := NewEndFor(cfg, l.env, r, admin, now);
      if result.End? then l.(env := l.env.(expires := result.end, lease := FRESH), term := l.term + 1) else l
    case FreshDeploy(cfg, now) =>
      if l.env.status != OtherStatus then l
      else
        var end := if cfg.enabled then Some(now + cfg.defaultDays * DAY) else None;
        l.(env := l.env.(expires := end, lease := FRESH), term := l.term + 1)
    case StatusIs(s) => l.(env := l.env.(status := s))
  }

  function Start(expires: Option<int>): Life {
    Life(Env(expires, Deployed, FRESH), 0, [])
  }

  function Run(l: Life, events: seq<Event>): Life {
    if events == [] then l else Next(Run(l, events[..|events| - 1]), events[|events| - 1])
  }

  function Count(log: seq<Entry>, term: nat, act: Action): nat {
    if log == [] then 0
    else
      var e := log[|log| - 1];
      Count(log[..|log| - 1], term, act) + if e.term == term && e.act == act then 1 else 0
  }

  /** Every entry keeps to the rules of its term, given the entries before it. */
  ghost predicate InOrder(log: seq<Entry>) {
    forall j :: 0 <= j < |log| ==>
      var e := log[j];
      && e.cfg.enabled && (e.busy ==> e.act.Remind?)
      && (e.act == ShutDown ==> e.at >= e.end)
      && (e.act == Destroy ==>
            && e.cfg.destroys && e.at >= e.end + e.cfg.graceDays * DAY
            && exists i :: 0 <= i < j && log[i].term == e.term && log[i].act == ShutDown && log[i].end == e.end)
      && (e.act.Remind? ==> e.at < e.end && e.act.passed != {} && e.act.passed <= Due(e.cfg, e.end - e.at))
  }

  /** What the environment's lease progress says about the current term's entries. */
  ghost predicate Matches(l: Life) {
    && (forall j :: 0 <= j < |l.log| ==> l.log[j].term <= l.term)
    && (forall j :: 0 <= j < |l.log| && l.log[j].term == l.term ==> l.env.expires == Some(l.log[j].end))
    && Count(l.log, l.term, ShutDown) == (if l.env.lease.stoppedAt.Some? then 1 else 0)
    && Count(l.log, l.term, Destroy) == (if l.env.lease.destroyStarted then 1 else 0)
    && (l.env.lease.stoppedAt.Some? ==>
          exists i :: 0 <= i < |l.log| && l.log[i].term == l.term && l.log[i].act == ShutDown)
  }

  ghost predicate AtMostOnce(l: Life) {
    forall t: nat :: Count(l.log, t, ShutDown) <= 1 && Count(l.log, t, Destroy) <= 1
  }

  lemma {:induction false} NoneInTerm(log: seq<Entry>, t: nat, act: Action)
    requires forall j :: 0 <= j < |log| ==> log[j].term < t
    ensures Count(log, t, act) == 0
  {
    if log != [] {
      NoneInTerm(log[..|log| - 1], t, act);
    }
  }

  lemma CountOneMore(log: seq<Entry>, e: Entry, t: nat, act: Action)
    ensures Count(log + [e], t, act) == Count(log, t, act) + if e.term == t && e.act == act then 1 else 0
  {
    assert (log + [e])[..|log|] == log;
  }

  /** What one tick adds to the history keeps it in order. */
  lemma TickKeeps(l: Life, cfg: Settings, now: int, busy: bool)
    requires InOrder(l.log) && Matches(l) && AtMostOnce(l)
    ensures var l' := Next(l, Tick(cfg, now, busy)); InOrder(l'.log) && Matches(l') && AtMostOnce(l')
  {
    hide Count;
    var l' := Next(l, Tick(cfg, now, busy));
    if l'.log != l.log {
      var e := l'.log[|l.log|];
      assert l'.log == l.log + [e];
      forall t: nat, act
        ensures Count(l'.log, t, act) == Count(l.log, t, act) + if e.term == t && e.act == act then 1 else 0
      {
        CountOneMore(l.log, e, t, act);
      }
      assert forall j :: 0 <= j < |l.log| ==> l'.log[j] == l.log[j];
      if l.env.lease.stoppedAt.Some? {
        var i :| 0 <= i < |l.log| && l.log[i].term == l.term && l.log[i].act == ShutDown;
        assert l'.log[i] == l.log[i];
      }
      if e.act.Remind? {
        var d :| d in Due(cfg, e.end - now) && d !in l.env.lease.reminded;
        assert d in e.act.passed;
      }
    }
  }

  lemma NewTermKeeps(l: Life, ev: Event)
    requires InOrder(l.log) && Matches(l) && AtMostOnce(l) && !ev.Tick?
    ensures var l' := Next(l, ev); InOrder(l'.log) && Matches(l') && AtMostOnce(l')
  {
    hide Count, InOrder;
    var l' := Next(l, ev);
    if l'.term != l.term {
      NoneInTerm(l.log, l'.term, ShutDown);
      NoneInTerm(l.log, l'.term, Destroy);
    }
  }

  /** Over every life of an environment, with any settings at each tick: per term at most one shutdown and
      one destroy, neither while a job of the environment's is queued or running; a shutdown not before the end;
      a destroy only after an earlier tick's shutdown in that term and not before the end plus the grace
      period. */
  lemma {:induction false} EveryLife(expires: Option<int>, events: seq<Event>)
    ensures var l := Run(Start(expires), events); InOrder(l.log) && Matches(l) && AtMostOnce(l)
  {
    if events != [] {
      EveryLife(expires, events[..|events| - 1]);
      var l, ev := Run(Start(expires), events[..|events| - 1]), events[|events| - 1];
      match ev
      case Tick(cfg, now, busy) => TickKeeps(l, cfg, now, busy);
      case _ => NewTermKeeps(l, ev);
    }
  }

  /** Setting a lease starts a term over: what happened before doesn't hold anything back. */
  lemma NewLeaseStartsOver(expires: Option<int>, events: seq<Event>, cfg: Settings, r: Request, admin: bool, now: int)
    requires NewEndFor(cfg, Run(Start(expires), events).env, r, admin, now).End?
    ensures var (l, l') := (Run(Start(expires), events), Run(Start(expires), events + [SetLease(cfg, r, admin, now)]));
            && l'.term == l.term + 1 && l'.env.lease == FRESH && l'.log == l.log
            && l'.env.expires == NewEndFor(cfg, l.env, r, admin, now).end && l'.env.status == l.env.status
            && Count(l'.log, l'.term, ShutDown) == Count(l'.log, l'.term, Destroy) == Reminders(l'.log, l'.term) == 0
  {
    hide Count, Reminders, InOrder, AtMostOnce;
    assert (events + [SetLease(cfg, r, admin, now)])[..|events|] == events;
    EveryLife(expires, events);
    var l := Run(Start(expires), events);
    NoneInTerm(l.log, l.term + 1, ShutDown);
    NoneInTerm(l.log, l.term + 1, Destroy);
    NoRemindersInTerm(l.log, l.term + 1);
  }

  /** So does deploying an environment afresh, with the default lease while leases are enabled and none otherwise;
      one that is deployed or being destroyed keeps the lease it has. */
  lemma FreshDeployStartsOver(expires: Option<int>, events: seq<Event>, cfg: Settings, now: int)
    ensures var (l, l') := (Run(Start(expires), events), Run(Start(expires), events + [FreshDeploy(cfg, now)]));
            && (l.env.status != OtherStatus ==> l' == l)
            && (l.env.status == OtherStatus ==>
                  && l'.term == l.term + 1 && l'.env.lease == FRESH && l'.log == l.log && l'.env.status == l.env.status
                  && (l'.env.expires.Some? <==> cfg.enabled)
                  && (cfg.enabled ==> l'.env.expires.value - now == cfg.defaultDays * DAY)
                  && Count(l'.log, l'.term, ShutDown) == Count(l'.log, l'.term, Destroy)
                     == Reminders(l'.log, l'.term) == 0)
  {
    hide Count, Reminders, InOrder, AtMostOnce;
    assert (events + [FreshDeploy(cfg, now)])[..|events|] == events;
    EveryLife(expires, events);
    var l := Run(Start(expires), events);
    NoneInTerm(l.log, l.term + 1, ShutDown);
    NoneInTerm(l.log, l.term + 1, Destroy);
    NoRemindersInTerm(l.log, l.term + 1);
  }

  /** The job runner's changes of the status, and a refused request, leave the lease and its history alone. */
  lemma OthersLeaveLease(expires: Option<int>, events: seq<Event>, ev: Event)
    requires match ev
             case StatusIs(_) => true
             case SetLease(cfg, r, admin, now) => !NewEndFor(cfg, Run(Start(expires), events).env, r, admin, now).End?
             case _ => false
    ensures var (l, l') := (Run(Start(expires), events), Run(Start(expires), events + [ev]));
            && l'.(env := l'.env.(status := l.env.status)) == l
            && l'.env.status == (if ev.StatusIs? then ev.status else l.env.status)
  {
    assert (events + [ev])[..|events|] == events;
  }

  // --- reminders ----------------------------------------------------------------------------

  function Reminders(log: seq<Entry>, term: nat): nat {
    if log == [] then 0
    else
      var e := log[|log| - 1];
      Reminders(log[..|log| - 1], term) + if e.term == term && e.act.Remind? then 1 else 0
  }

  ghost predicate SameRemindDays(events: seq<Event>, days: seq<nat>) {
    forall i :: 0 <= i < |events| && events[i].Tick? ==> events[i].cfg.remindDays == days
  }

  ghost function Thresholds(days: seq<nat>): set<nat> {
    set d | d in days
  }

  /** Everything reminded of in this term, by the history, is what the progress says. */
  ghost predicate RemindersMatch(l: Life) {
    && (forall j :: 0 <= j < |l.log| ==> l.log[j].term <= l.term)
    && Reminders(l.log, l.term) <= |l.env.lease.reminded|
    && forall j :: 0 <= j < |l.log| && l.log[j].term == l.term && l.log[j].act.Remind? ==>
         l.log[j].act.passed <= l.env.lease.reminded
  }

  /** No two reminders of one term report the same threshold. */
  ghost predicate FreshOnce(log: seq<Entry>) {
    forall i, j :: 0 <= i < j < |log| && log[i].term == log[j].term && log[i].act.Remind? && log[j].act.Remind? ==>
      log[i].act.passed !! log[j].act.passed
  }

  lemma {:induction false} NoRemindersInTerm(log: seq<Entry>, t: nat)
    requires forall j :: 0 <= j < |log| ==> log[j].term < t
    ensures Reminders(log, t) == 0
  {
    if log != [] {
      NoRemindersInTerm(log[..|log| - 1], t);
    }
  }

  lemma MoreReminded(a: set<nat>, b: set<nat>)
    requires !(b <= a)
    ensures |a + b| >= |a| + 1
  {
    var x :| x in b && x !in a;
    assert |a + {x}| == |a| + 1;
    SubsetSize(a + {x}, a + b);
  }

  lemma OneMoreReminder(log: seq<Entry>, e: Entry, t: nat)
    ensures Reminders(log + [e], t) == Reminders(log, t) + if e.term == t && e.act.Remind? then 1 else 0
  {
    assert (log + [e])[..|log|] == log;
  }

  lemma ReminderStep(l: Life, ev: Event)
    requires RemindersMatch(l) && FreshOnce(l.log)
    ensures RemindersMatch(Next(l, ev)) && FreshOnce(Next(l, ev).log)
  {
    hide Reminders, Due;
    var l' := Next(l, ev);
    if l'.term != l.term {
      NoRemindersInTerm(l.log, l'.term);
    } else if l'.log != l.log {
      var e := l'.log[|l.log|];
      assert l'.log == l.log + [e];
      OneMoreReminder(l.log, e, l.term);
      if e.act.Remind? {
        MoreReminded(l.env.lease.reminded, Due(ev.cfg, l.env.expires.value - ev.now));
      }
    }
  }

  lemma {:induction false} RemindersEveryLife(expires: Option<int>, events: seq<Event>)
    ensures var l := Run(Start(expires), events); RemindersMatch(l) && FreshOnce(l.log)
  {
    hide RemindersMatch, FreshOnce, Next;
    if events == [] {
      NoReminders(expires);
    } else {
      RemindersEveryLife(expires, events[..|events| - 1]);
      ReminderStep(Run(Start(expires), events[..|events| - 1]), events[|events| - 1]);
    }
  }

  lemma NoReminders(expires: Option<int>)
    ensures RemindersMatch(Start(expires)) && FreshOnce([])
  {
  }

  lemma {:induction false} RemindedFromSettings(expires: Option<int>, events: seq<Event>, days: seq<nat>)
    requires SameRemindDays(events, days)
    ensures Run(Start(expires), events).env.lease.reminded <= Thresholds(days)
  {
    if events != [] {
      RemindedFromSettings(expires, events[..|events| - 1], days);
      assert events[|events| - 1].Tick? ==> events[|events| - 1].cfg.remindDays == days;
    }
  }

  /** With fixed thresholds, every term's reminders number at most the distinct thresholds, and no two of
      them report the same one. */
  lemma {:induction false} RemindersAtMost(expires: Option<int>, events: seq<Event>, days: seq<nat>, term: nat)
    requires SameRemindDays(events, days)
    ensures var l := Run(Start(expires), events);
            Reminders(l.log, term) <= |Thresholds(days)| && FreshOnce(l.log)
  {
    hide Reminders, FreshOnce, RemindersMatch;
    var l := Run(Start(expires), events);
    RemindersEveryLife(expires, events);
    if term == l.term {
      ThisTermsReminders(l);
      RemindedFromSettings(expires, events, days);
      SubsetSize(l.env.lease.reminded, Thresholds(days));
    } else if events == [] {
      NoRemindersInTerm([], term);
    } else {
      RemindersAtMost(expires, events[..|events| - 1], days, term);
      var before := Run(Start(expires), events[..|events| - 1]);
      if l.log != before.log {
        OneMoreReminder(before.log, l.log[|before.log|], term);
      }
    }
  }

  lemma ThisTermsReminders(l: Life)
    requires RemindersMatch(l)
    ensures Reminders(l.log, l.term) <= |l.env.lease.reminded|
  {
  }

  /** Every threshold the progress says was reminded of is in a reminder of this term. */
  ghost predicate AllReported(l: Life) {
    forall d :: d in l.env.lease.reminded ==> Reported(l.log, l.term, d)
  }

  ghost predicate Reported(log: seq<Entry>, term: nat, d: nat) {
    exists j :: 0 <= j < |log| && log[j].term == term && log[j].act.Remind? && d in log[j].act.passed
  }

  lemma ReportedStep(l: Life, ev: Event)
    requires AllReported(l)
    ensures AllReported(Next(l, ev))
  {
    hide Due;
    var l' := Next(l, ev);
    if l'.term == l.term && l'.log != l.log {
      var e := l'.log[|l.log|];
      assert l'.log == l.log + [e];
      forall d | d in l'.env.lease.reminded ensures Reported(l'.log, l'.term, d) {
        if d in l.env.lease.reminded {
          var j :| 0 <= j < |l.log| && l.log[j].term == l.term && l.log[j].act.Remind? && d in l.log[j].act.passed;
          assert l'.log[j] == l.log[j];
        } else {
          assert d in e.act.passed;
        }
      }
    }
  }

  lemma {:induction false} AlwaysReported(expires: Option<int>, events: seq<Event>)
    ensures AllReported(Run(Start(expires), events))
  {
    hide Next;
    if events != [] {
      AlwaysReported(expires, events[..|events| - 1]);
      ReportedStep(Run(Start(expires), events[..|events| - 1]), events[|events| - 1]);
    }
  }

  /** The i-th event is a tick that finds the environment deployed, with a lease that hasn't ended. */
  predicate TickBeforeEnd(expires: Option<int>, events: seq<Event>, i: nat)
    requires i < |events|
  {
    var (e, ev) := (Run(Start(expires), events[..i]).env, events[i]);
    ev.Tick? && ev.cfg.enabled && e.status == Deployed && e.expires.Some? && ev.now < e.expires.value
  }

  lemma KeepsReminded(l: Life, ev: Event)
    requires Next(l, ev).term == l.term
    ensures l.env.lease.reminded <= Next(l, ev).env.lease.reminded
  {
  }

  lemma TermGrows(l: Life, ev: Event)
    ensures l.term <= Next(l, ev).term
  {
  }

  lemma {:induction false} RemindedAfter(expires: Option<int>, events: seq<Event>, i: nat)
    requires i < |events| && TickBeforeEnd(expires, events, i)
    ensures var (l, l') := (Run(Start(expires), events[..i]), Run(Start(expires), events));
            && l.term <= l'.term
            && (l.term == l'.term ==> Due(events[i].cfg, l.env.expires.value - events[i].now) <= l'.env.lease.reminded)
    decreases |events|
  {
    hide Due, Next;
    var front := events[..|events| - 1];
    if i == |front| {
      TickReminds(Run(Start(expires), front), events[i]);
    } else {
      assert front[..i] == events[..i];
      RemindedAfter(expires, front, i);
      TermGrows(Run(Start(expires), front), events[|front|]);
      if Run(Start(expires), front).term == Run(Start(expires), events).term {
        KeepsReminded(Run(Start(expires), front), events[|front|]);
      }
    }
  }

  lemma TickReminds(l: Life, ev: Event)
    requires ev.Tick? && ev.cfg.enabled && l.env.status == Deployed
    requires l.env.expires.Some? && ev.now < l.env.expires.value
    ensures var l' := Next(l, ev);
            l'.term == l.term && Due(ev.cfg, l.env.expires.value - ev.now) <= l'.env.lease.reminded
  {
  }

  predicate Reports(l: Life, j: nat, d: nat)
    requires j < |l.log|
  {
    l.log[j].term == l.term && l.log[j].act.Remind? && d in l.log[j].act.passed
  }

  /** However a life goes on within the term: every threshold passed at a tick before the end stays among
      the reminded ones, and was reported by exactly one of the term's reminders. */
  lemma TickRemindsAll(expires: Option<int>, events: seq<Event>, i: nat, d: nat)
    requires i < |events| && TickBeforeEnd(expires, events, i)
    requires Run(Start(expires), events[..i]).term == Run(Start(expires), events).term
    requires d in Due(events[i].cfg, Run(Start(expires), events[..i]).env.expires.value - events[i].now)
    ensures var l := Run(Start(expires), events);
            && d in l.env.lease.reminded
            && exists j :: 0 <= j < |l.log| && Reports(l, j, d)
                           && forall k :: 0 <= k < |l.log| && Reports(l, k, d) ==> k == j
  {
    hide Run, Due, TickBeforeEnd;
    RemindedAfter(expires, events, i);
    AlwaysReported(expires, events);
    RemindersEveryLife(expires, events);
    var l := Run(Start(expires), events);
    assert Reported(l.log, l.term, d);
    var j :| 0 <= j < |l.log| && l.log[j].term == l.term && l.log[j].act.Remind? && d in l.log[j].act.passed;
    assert Reports(l, j, d);
  }

  // --- exactly what a tick does -------------------------------------------------------------

  /** The thresholds passed that no reminder of this term has reported yet. */
  ghost function Unreported(l: Life, cfg: Settings, now: int): set<nat>
    requires l.env.expires.Some?
  {
    set d | d in cfg.remindDays && l.env.expires.value - now <= d * DAY && !Reported(l.log, l.term, d)
  }

  /** Ticks look at deployed environments with a lease, while leases are enabled. */
  predicate Watched(l: Life, cfg: Settings) {
    cfg.enabled && l.env.status == Deployed && l.env.expires.Some?
  }

  /** What a tick has to do, by the history alone. */
  ghost function Required(l: Life, cfg: Settings, now: int, busy: bool): Option<Action> {
    if !Watched(l, cfg) then None
    else if now < l.env.expires.value then
      if Unreported(l, cfg, now) == {} then None else Some(Remind(Unreported(l, cfg, now)))
    else if busy then None
    else if Count(l.log, l.term, ShutDown) == 0 then Some(ShutDown)
    else if && cfg.destroys && now >= l.env.expires.value + cfg.graceDays * DAY
            && Count(l.log, l.term, Destroy) == 0 then Some(Destroy)
    else None
  }

  lemma WhatIsReminded(l: Life, cfg: Settings, now: int)
    requires AllReported(l) && RemindersMatch(l) && l.env.expires.Some?
    ensures Unreported(l, cfg, now) == Due(cfg, l.env.expires.value - now) - l.env.lease.reminded
  {
    hide Reminders;
  }

  /** Over every life, the next tick does exactly what the history calls for: past the end it shuts down at
      once, unless that was done in this term, and destroys after the grace period, unless that was; it leaves
      a busy environment alone from its end on, but reminds of it before; and it changes nothing else but, with
      a destroy, the status. */
  lemma TickDoesExactly(expires: Option<int>, events: seq<Event>, cfg: Settings, now: int, busy: bool)
    ensures var (l, l') := (Run(Start(expires), events), Run(Start(expires), events + [Tick(cfg, now, busy)]));
            var act := Required(l, cfg, now, busy);
            && l'.log == l.log + (if act == None then []
                                  else [Entry(l.term, now, l.env.expires.value, act.value, cfg, busy)])
            && l'.term == l.term && l'.env.expires == l.env.expires
            && l'.env.status == (if act == Some(Destroy) then Destroying else l.env.status)
            && (act == None ==> l' == l)
  {
    hide Count, Reminders, Due, InOrder, AtMostOnce, AllReported, RemindersMatch, Unreported, FreshOnce;
    assert (events + [Tick(cfg, now, busy)])[..|events|] == events;
    var l := Run(Start(expires), events);
    EveryLife(expires, events);
    AlwaysReported(expires, events);
    RemindersEveryLife(expires, events);
    if l.env.expires.Some? {
      WhatIsReminded(l, cfg, now);
    }
    hide Run, Next, Matches, Required;
    OneTick(l, cfg, now, busy);
    WithNothing(l.log);
  }

  lemma OneTick(l: Life, cfg: Settings, now: int, busy: bool)
    requires Matches(l)
    requires l.env.expires.Some? ==>
      Unreported(l, cfg, now) == Due(cfg, l.env.expires.value - now) - l.env.lease.reminded
    ensures var (l', act) := (Next(l, Tick(cfg, now, busy)), Required(l, cfg, now, busy));
            && (act == None ==> l' == l)
            && (act.Some? ==>
                  l.env.expires.Some?
                  && l'.log == l.log + [Entry(l.term, now, l.env.expires.value, act.value, cfg, busy)])
            && l'.term == l.term && l'.env.expires == l.env.expires
            && l'.env.status == (if act == Some(Destroy) then Destroying else l.env.status)
  {
    hide Count, Due, Unreported;
    assert cfg.graceDays * DAY >= 0;
    if l.env.expires.Some? {
      NoneLeft(Due(cfg, l.env.expires.value - now), l.env.lease.reminded);
    }
  }

  lemma NoneLeft(due: set<nat>, reminded: set<nat>)
    ensures due <= reminded <==> due - reminded == {}
  {
    if d :| d in due && d !in reminded {
      assert d in due - reminded;
    }
  }

  predicate BusyTicks(events: seq<Event>) {
    forall i :: 0 <= i < |events| ==> events[i].Tick? && events[i].busy
  }

  /** However long a job keeps the environment busy, nothing is shut down or destroyed under it. */
  lemma {:induction false} NothingWhileBusy(expires: Option<int>, events: seq<Event>, more: seq<Event>)
    requires BusyTicks(more)
    ensures var (l, l') := (Run(Start(expires), events), Run(Start(expires), events + more));
            && l'.term == l.term && l'.env.expires == l.env.expires && l'.env.status == l.env.status
            && l'.env.lease.stoppedAt == l.env.lease.stoppedAt
            && l'.env.lease.destroyStarted == l.env.lease.destroyStarted
            && l.log <= l'.log && forall j :: |l.log| <= j < |l'.log| ==> l'.log[j].act.Remind?
  {
    if more == [] {
      WithNothing(events);
    } else {
      var (front, ev) := (more[..|more| - 1], more[|more| - 1]);
      NothingWhileBusy(expires, events, front);
      assert (events + more)[..|events + more| - 1] == events + front;
      assert ev.Tick? && ev.busy;
    }
  }

  // --- who sets which lease -----------------------------------------------------------------

  /** Only admins set an exact end, which must be ahead, or remove the end; only they extend past max_days, and
      what an owner may have, an admin gets the same. */
  lemma WhoSetsWhat(cfg: Settings, e: Env, r: Request, admin: bool, now: int)
    ensures var n := NewEndFor(cfg, e, r, admin, now);
            && (n == AdminsOnly <==> !admin && !r.Days? && !r.Nothing?)
            && (n == NotInFuture <==> admin && r.Until? && r.end <= now)
            && (n == TooShort <==> r.Nothing? || (r.Days? && r.days < 1))
            && (n == TooLong ==> !admin)
            && (n.End? && n.end == None <==> admin && r.Clear?)
            && (n.End? && n.end.Some? ==> n.end.value > now && (r.Until? ==> n.end.value == r.end))
            && (admin && r.Days? && r.days >= 1 ==>
                  n.End? && n.end.Some?
                  && n.end.value == r.days * DAY + (if e.expires.Some? && e.expires.value > now then e.expires.value
                                                    else now))
            && (NewEndFor(cfg, e, r, false, now).End? ==> n == NewEndFor(cfg, e, r, false, now))
  {
  }

  /** An admin's clearing, and a fresh deploy while leases are disabled, leave an environment without an end. */
  predicate RemovesEnd(ev: Event) {
    || (ev.SetLease? && ev.admin && ev.request.Clear?)
    || (ev.FreshDeploy? && !ev.cfg.enabled)
  }

  /** Nothing else does, over any life: whatever owners ask for, an end stays an end. */
  lemma {:induction false} EndsStay(expires: Option<int>, events: seq<Event>)
    requires expires.Some? && forall i :: 0 <= i < |events| ==> !RemovesEnd(events[i])
    ensures Run(Start(expires), events).env.expires.Some?
  {
    if events != [] {
      EndsStay(expires, events[..|events| - 1]);
      assert !RemovesEnd(events[|events| - 1]);
    }
  }

  /** No admin sets a lease, and nothing is deployed afresh. */
  predicate OwnersOnly(events: seq<Event>) {
    forall i :: 0 <= i < |events| ==> !events[i].FreshDeploy? && (events[i].SetLease? ==> !events[i].admin)
  }

  /** However owners set a lease, it never ends sooner than it did. */
  lemma {:induction false} OwnersOnlyExtend(expires: Option<int>, events: seq<Event>, more: seq<Event>)
    requires Run(Start(expires), events).env.expires.Some? && OwnersOnly(more)
    ensures var (e, e') := (Run(Start(expires), events).env, Run(Start(expires), events + more).env);
            e'.expires.Some? && e.expires.value <= e'.expires.value
  {
    if more == [] {
      WithNothing(events);
    } else {
      var (front, ev) := (more[..|more| - 1], more[|more| - 1]);
      OwnersOnlyExtend(expires, events, front);
      assert (events + more)[..|events + more| - 1] == events + front;
      assert !ev.FreshDeploy? && (ev.SetLease? ==> !ev.admin);
    }
  }

  // --- owners' extensions, and phases -------------------------------------------------------

  /** An owner's extension is given exactly when it is for at least a day and ends within max_days from
      now; it never shortens a lease, and lengthens one that hasn't ended by exactly what was asked. */
  lemma OwnerExtends(cfg: Settings, e: Env, days: int, now: int)
    ensures var r := NewEndFor(cfg, e, Days(days), false, now);
            && (r.End? <==> 1 <= days && days <= cfg.maxDays
                            && (e.expires.Some? ==> e.expires.value + days * DAY <= now + cfg.maxDays * DAY))
            && (r.End? ==>
                  && r.end.Some? && now < r.end.value <= now + cfg.maxDays * DAY
                  && (e.expires.Some? ==> e.expires.value < r.end.value)
                  && (e.expires.Some? && e.expires.value >= now ==> r.end.value == e.expires.value + days * DAY))
  {
  }

  /** When the last event happened. */
  function Clock(events: seq<Event>, start: int): int {
    if events == [] then start
    else
      match events[|events| - 1]
      case Tick(_, now, _) => now
      case SetLease(_, _, _, now) => now
      case FreshDeploy(_, now) => now
      case StatusIs(_) => Clock(events[..|events| - 1], start)
  }

  predicate ClockNeverGoesBack(events: seq<Event>, start: int) {
    events != [] ==>
      && ClockNeverGoesBack(events[..|events| - 1], start)
      && Clock(events[..|events| - 1], start) <= Clock(events, start)
  }

  /** Only owners set leases, under these settings. */
  predicate OnlyOwners(events: seq<Event>, maxDays: nat, defaultDays: nat) {
    forall i :: 0 <= i < |events| ==>
      && (events[i].SetLease? ==> !events[i].admin && events[i].cfg.maxDays == maxDays)
      && (events[i].FreshDeploy? ==> events[i].cfg.defaultDays == defaultDays)
  }

  /** Over a whole life in which only owners extend, by any number of steps: the lease never reaches further
      than max_days (or a fresh deploy's default) from the present, unless it did so from the start. */
  lemma {:induction false} OwnersStayWithin(expires: Option<int>, events: seq<Event>, maxDays: nat, defaultDays: nat,
                                           start: int)
    requires OnlyOwners(events, maxDays, defaultDays) && ClockNeverGoesBack(events, start)
    ensures var (e, reach) := (Run(Start(expires), events).env, if maxDays > defaultDays then maxDays else defaultDays);
            e.expires.Some? ==>
              || e.expires.value <= Clock(events, start) + reach * DAY
              || (expires.Some? && e.expires.value <= expires.value)
  {
    var reach := if maxDays > defaultDays then maxDays else defaultDays;
    if events != [] {
      var (front, ev) := (events[..|events| - 1], events[|events| - 1]);
      OwnersStayWithin(expires, front, maxDays, defaultDays, start);
      assert events[|front|] == ev && maxDays * DAY <= reach * DAY && defaultDays * DAY <= reach * DAY;
    }
  }

  datatype Phase = NoLease | Active | Expiring | Ended | BeingDestroyed

  function MaxOf(days: seq<nat>): nat
    requires days != []
  {
    if |days| == 1 then days[0]
    else
      var m := MaxOf(days[1..]);
      if days[0] > m then days[0] else m
  }

  /** `phase`, given the settings. */
  function PhaseOf(cfg: Settings, e: Env, now: int): Phase {
    if e.expires == None then NoLease
    else if e.lease.destroyStarted then BeingDestroyed
    else if now >= e.expires.value then Ended
    else if cfg.remindDays != [] && e.expires.value - now <= MaxOf(cfg.remindDays) * DAY then Expiring
    else Active
  }

  lemma {:induction false} MaxOfIs(days: seq<nat>)
    requires days != []
    ensures MaxOf(days) in days && forall d :: d in days ==> d <= MaxOf(days)
  {
    if |days| > 1 {
      MaxOfIs(days[1..]);
      assert days == [days[0]] + days[1..];
    }
  }

  /** Whatever happened before: a deployed environment that isn't being destroyed yet, past its grace period,
      has been shut down and destroyed once each after two more ticks that find it idle. */
  lemma EndsInTwoTicks(expires: Option<int>, events: seq<Event>, cfg: Settings, t1: int, t2: int)
    requires var l := Run(Start(expires), events);
             && cfg.enabled && cfg.destroys && l.env.status == Deployed && l.env.expires.Some?
             && Count(l.log, l.term, Destroy) == 0
             && l.env.expires.value + cfg.graceDays * DAY <= t1 <= t2
    ensures var (l, l') := (Run(Start(expires), events),
                            Run(Start(expires), events + [Tick(cfg, t1, false), Tick(cfg, t2, false)]));
            && l'.term == l.term && l'.env.status == Destroying
            && Count(l'.log, l'.term, ShutDown) == Count(l'.log, l'.term, Destroy) == 1
  {
    hide Count, InOrder, AtMostOnce;
    var (one, two) := (events + [Tick(cfg, t1, false)], events + [Tick(cfg, t1, false), Tick(cfg, t2, false)]);
    EveryLife(expires, events);
    EveryLife(expires, two);
    assert two[..|two| - 1] == one && one[..|one| - 1] == events;
    assert cfg.graceDays * DAY >= 0;
  }

  /** Before the end, an environment that isn't being destroyed shows as expiring once a threshold is passed,
      and as active until then; a tick reminds of what shows as expiring unless everything passed has been
      reported, and does nothing about what shows as active. */
  lemma ShowsExactly(cfg: Settings, e: Env, now: int, busy: bool)
    ensures var ahead := e.expires.Some? && now < e.expires.value && !e.lease.destroyStarted;
            var p := PhaseOf(cfg, e, now);
            && (p == NoLease <==> e.expires == None)
            && (p == Active <==> ahead && Due(cfg, e.expires.value - now) == {})
            && (p == Expiring <==> ahead && Due(cfg, e.expires.value - now) != {})
            && (p == Active ==> TickOne(cfg, e, now, busy) == (e, None))
            && (p == Expiring && cfg.enabled && e.status == Deployed && e.lease.reminded == {} ==>
                  TickOne(cfg, e, now, busy).1 == Some(Remind(Due(cfg, e.expires.value - now))))
  {
    hide Due, MaxOf;
    if e.expires.Some? {
      SomeDue(cfg, e.expires.value - now);
      assert Due(cfg, e.expires.value - now) - {} == Due(cfg, e.expires.value - now);
    }
  }

  lemma SomeDue(cfg: Settings, left: int)
    ensures Due(cfg, left) != {} <==> cfg.remindDays != [] && left <= MaxOf(cfg.remindDays) * DAY
  {
    hide MaxOf;
    if cfg.remindDays != [] {
      MaxOfIs(cfg.remindDays);
      if left <= MaxOf(cfg.remindDays) * DAY {
        assert MaxOf(cfg.remindDays) in Due(cfg, left);
      }
      if d :| d in Due(cfg, left) {
        assert left <= d * DAY <= MaxOf(cfg.remindDays) * DAY;
      }
    }
  }

  /** What the page shows and what the worker does agree: it reminds only while expiring, shuts down and
      destroys only once ended, and whatever it destroys shows as being destroyed. */
  lemma ActionsMatchPhase(cfg: Settings, e: Env, now: int, busy: bool)
    ensures var (e', act) := TickOne(cfg, e, now, busy);
            && (act.Some? && act.value.Remind? ==> PhaseOf(cfg, e, now) in {Expiring, BeingDestroyed})
            && (act == Some(ShutDown) ==>
                  PhaseOf(cfg, e, now) in {Ended, BeingDestroyed} && PhaseOf(cfg, e', now) == PhaseOf(cfg, e, now))
            && (act == Some(Destroy) ==> PhaseOf(cfg, e, now) == Ended && PhaseOf(cfg, e', now) == BeingDestroyed)
  {
    hide MaxOf;
    var (e', act) := TickOne(cfg, e, now, busy);
    if act.Some? && act.value.Remind? {
      var d :| d in Due(cfg, e.expires.value - now);
      MaxOfIs(cfg.remindDays);
    }
  }
}
