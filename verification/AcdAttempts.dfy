/**
  When static-address acquisition starts a probe, that it comes to an installed address, and when it stops.
*/
module AcdAttempts {
  import opened AcdModel
  import opened AcdProgress
  import AcdSafety

  // ---- Which events start a probe sequence ----------------------------------

  // The number of probe sequences in a history
  ghost function Starts(h: History): nat {
    match h
    case Nothing => 0
    case Then(past, o) => Starts(past) + if o.Started? then 1 else 0
  }

  // The allocations on the way to a probe succeed; a semaphore that exists is not made again.
  predicate Succeeds(s: Sys, alloc: Alloc) {
    match alloc
    case AllocOk => true
    case NoSemaphore => s.c.semMade
    case NoContext => false
    case NoRegistrationSemaphore => s.c.regSemMade
  }

  // The event comes to a pending address with MAC address and link.
  predicate Tries(s: Sys, ev: Event) {
    match ev
    case Configure(_, _, _) => s.p.hwValid && s.p.linkUp
    case LinkEvent(_, _) => s.c.pending && s.p.linkUp
    case DeferredTimeout(_, _) => s.c.pending && s.p.hwValid && s.p.linkUp
    case RetryTimer(queued, _, _) => !queued && s.c.retryTarget && s.p.hwValid && s.p.linkUp
    case RetryCallback(_, _) => s.c.retryTarget && s.c.pending && s.p.hwValid && s.p.linkUp
    case _ => false
  }

  predicate StartsProbe(s: Sys, ev: Event) {
    Tries(s, ev) && Succeeds(s, ev.alloc)
  }

  // A probe sequence for the wanted address has just begun, and its verdict is waited for.
  ghost predicate JustStarted(s: Sys) {
    && s.e.listed && s.e.st.ProbeWait? && s.e.ip == s.c.cfg && s.e.sent == 0 && s.e.ttw < PROBE_WAIT_TICKS
    && s.c.registered && s.c.pending && !s.c.received && s.c.last.IpOk? && !s.c.semGiven && s.c.activity == 2
    && s.h.Then? && s.h.now == Started(s.c.cfg)
  }

  lemma PerformStartsIff(s: Sys, alloc: Alloc, rand: nat)
    requires s.c.pending && (s.c.registered ==> s.e.listed)
    ensures var (t, blocked) := Perform(s, alloc, rand);
            && blocked == Succeeds(s, alloc)
            && (if blocked then JustStarted(t) && t.c.cfg == s.c.cfg else t.e == s.e && t.c.pending && t.c.fault)
            && Starts(t.h) == Starts(s.h) + if blocked then 1 else 0
  {
  }

  lemma AfterPerformStartsNothing(s: Sys)
    ensures AfterPerform(s).e == s.e && Starts(AfterPerform(s).h) == Starts(s.h)
  {
  }

  lemma TryPendingStartsIff(s: Sys, alloc: Alloc, rand: nat)
    requires s.c.registered ==> s.e.listed
    ensures var (t, blocked) := TryPending(s, alloc, rand);
            && blocked == (s.c.pending && s.p.hwValid && s.p.linkUp && Succeeds(s, alloc))
            && (if blocked then JustStarted(t) && t.c.cfg == s.c.cfg else t.e == s.e)
            && Starts(t.h) == Starts(s.h) + if blocked then 1 else 0
  {
    hide Perform, AfterPerform, JustStarted;
    var s1 := s.(c := s.c.(activity := 2));
    PerformStartsIffTried(s1, alloc, rand);
    AfterPerformStartsNothing(Perform(s1, alloc, rand).0);
  }

  lemma PerformStartsIffTried(s: Sys, alloc: Alloc, rand: nat)
    requires s.c.registered ==> s.e.listed
    ensures s.c.pending ==>
              var (t, blocked) := Perform(s, alloc, rand);
              && blocked == Succeeds(s, alloc)
              && (if blocked then JustStarted(t) && t.c.cfg == s.c.cfg else t.e == s.e)
              && Starts(t.h) == Starts(s.h) + if blocked then 1 else 0
  {
    hide Perform, JustStarted;
    if s.c.pending {
      PerformStartsIff(s, alloc, rand);
    }
  }

  lemma TryPendingThenReturnStartsIff(s: Sys, alloc: Alloc, rand: nat)
    requires s.c.registered ==> s.e.listed
    ensures var t := TryPendingThenReturn(s, alloc, rand);
            var tried := s.c.pending && s.p.hwValid && s.p.linkUp && Succeeds(s, alloc);
            && (if tried then JustStarted(t) && t.c.cfg == s.c.cfg else t.e == s.e)
            && Starts(t.h) == Starts(s.h) + if tried then 1 else 0
  {
    hide TryPending;
    TryPendingStartsIff(s, alloc, rand);
  }

  // A step starts a probe if and only if its event comes to a pending address with MAC address and link, and the
  // allocations succeed.
  lemma StartsIff(s: Sys, ev: Event, maxAttempts: nat)
    requires Enabled(s, ev) && (s.c.registered ==> s.e.listed)
    ensures Starts(Step(s, ev, maxAttempts).h) == Starts(s.h) + if StartsProbe(s, ev) then 1 else 0
    ensures StartsProbe(s, ev) ==> JustStarted(Step(s, ev, maxAttempts))
    ensures StartsProbe(s, ev) && !ev.Configure? ==> Step(s, ev, maxAttempts).c.cfg == s.c.cfg
  {
    hide OnConfigure, OnLinkEvent, OnDeferred, OnRetryTimer, OnRetryCallback, OnWake, Tick, HearArp, JustStarted;
    match ev
    case Configure(ip, alloc, rand) => ConfigureStartsIff(s, ip, alloc, rand);
    case LinkEvent(alloc, rand) => LinkEventStartsIff(s, alloc, rand);
    case DeferredTimeout(alloc, rand) => DeferredStartsIff(s, alloc, rand);
    case RetryTimer(queued, alloc, rand) => RetryTimerStartsIff(s, queued, alloc, rand);
    case RetryCallback(alloc, rand) => RetryCallbackStartsIff(s, alloc, rand);
    case Wake(fromLink, timedOut) => WakeStartsNothing(s, fromLink, timedOut);
    case EngineTick => TickStartsNothing(Note(s, Ticked), maxAttempts);
    case ArpHeard(sender, target, foreign) =>
      HearArpStartsNothing(Note(s, Heard(sender, target, foreign)), sender, target, foreign, maxAttempts);
    case StopCallback =>
    case LinkFlag(_) =>
    case LinkLostEvent =>
  }

  // What an attempt comes to
  ghost predicate TriedTo(s: Sys, t: Sys, tried: bool, cfg: Ip4) {
    (tried ==> JustStarted(t) && t.c.cfg == cfg) && Starts(t.h) == Starts(s.h) + if tried then 1 else 0
  }

  lemma ConfigureStartsIff(s: Sys, ip: Ip4, alloc: Alloc, rand: nat)
    requires s.c.registered ==> s.e.listed
    ensures TriedTo(s, OnConfigure(s, ip, alloc, rand), StartsProbe(s, Configure(ip, alloc, rand)), ip)
  {
    hide TryPendingThenReturn, JustStarted, Succeeds;
    SucceedsBy(s, alloc);
    TryPendingThenReturnStartsIff(s.(c := s.c.(configured := true, cfg := ip, pending := true, activity := 1)), alloc, rand);
  }

  lemma DeferredStartsIff(s: Sys, alloc: Alloc, rand: nat)
    requires s.c.registered ==> s.e.listed
    ensures TriedTo(s, OnDeferred(s, alloc, rand), StartsProbe(s, DeferredTimeout(alloc, rand)), s.c.cfg)
  {
    hide TryPendingThenReturn, JustStarted, Succeeds;
    SucceedsBy(s, alloc);
    TryPendingThenReturnStartsIff(s.(p := s.p.(deferred := CountDown(s.p.deferred))), alloc, rand);
  }

  lemma RetryTimerStartsIff(s: Sys, queued: bool, alloc: Alloc, rand: nat)
    requires s.c.registered ==> s.e.listed
    ensures TriedTo(s, OnRetryTimer(s, queued, alloc, rand), StartsProbe(s, RetryTimer(queued, alloc, rand)), s.c.cfg)
  {
    hide TryPendingThenReturn, JustStarted, Succeeds;
    SucceedsBy(s, alloc);
    TryPendingThenReturnStartsIff(Note(s.(c := s.c.(timerArmed := false, pending := true)), RetryExpired), alloc, rand);
  }

  lemma RetryCallbackStartsIff(s: Sys, alloc: Alloc, rand: nat)
    requires s.c.registered ==> s.e.listed
    ensures TriedTo(s, OnRetryCallback(s, alloc, rand), StartsProbe(s, RetryCallback(alloc, rand)), s.c.cfg)
  {
    hide TryPendingThenReturn, JustStarted, Succeeds;
    SucceedsBy(s, alloc);
    TryPendingThenReturnStartsIff(s.(p := s.p.(queuedRetries := CountDown(s.p.queuedRetries))), alloc, rand);
  }

  lemma LinkEventStartsIff(s: Sys, alloc: Alloc, rand: nat)
    requires s.c.registered ==> s.e.listed
    ensures TriedTo(s, OnLinkEvent(s, alloc, rand), StartsProbe(s, LinkEvent(alloc, rand)), s.c.cfg)
  {
    hide TryPending;
    TryPendingStartsIff(s.(p := s.p.(hwValid := true)), alloc, rand);
  }

  lemma WakeStartsNothing(s: Sys, fromLink: bool, timedOut: bool)
    ensures Starts(OnWake(s, fromLink, timedOut).h) == Starts(s.h)
  {
    hide AfterPerform;
    AfterPerformStartsNothing(EndWait(s, timedOut));
  }

  lemma CallbackStartsNothing(s: Sys, v: Verdict, maxAttempts: nat)
    ensures Starts(Callback(s, v, maxAttempts).h) == Starts(s.h)
  {
    hide Confirm, Refuse;
    var s1 := s.(c := s.c.(last := v, received := true), h := Then(s.h, Told(v)));
    ConfirmStartsNothing(s1);
    RefuseStartsNothing(s1, maxAttempts);
  }

  lemma ConfirmStartsNothing(s: Sys)
    ensures Starts(Confirm(s).h) == Starts(s.h)
  {
  }

  lemma RefuseStartsNothing(s: Sys, maxAttempts: nat)
    ensures Starts(Refuse(s, maxAttempts).h) == Starts(s.h)
  {
  }

  lemma RestartStartsNothing(s: Sys, maxAttempts: nat)
    ensures Starts(Restart(s, maxAttempts).h) == Starts(s.h)
  {
    hide Callback;
    var s1 := s.(e := s.e.(numConflicts := (s.e.numConflicts + 1) % 256));
    CallbackStartsNothing(s1, Decline, maxAttempts);
    CallbackStartsNothing(StopEngine(Callback(s1, Decline, maxAttempts)), RestartClient, maxAttempts);
  }

  lemma HearArpStartsNothing(s: Sys, sender: Ip4, target: Ip4, foreign: bool, maxAttempts: nat)
    ensures Starts(HearArp(s, sender, target, foreign, maxAttempts).h) == Starts(s.h)
  {
    hide Restart;
    RestartStartsNothing(s, maxAttempts);
  }

  lemma TickStartsNothing(s: Sys, maxAttempts: nat)
    ensures Starts(Tick(s, maxAttempts).h) == Starts(s.h)
  {
    hide Callback;
    var s1 := s.(e := s.e.(lastConflict := CountDown(s.e.lastConflict), ttw := CountDown(s.e.ttw)));
    var e := s1.e;
    if s.e.listed && e.ttw == 0 {
      var e1 := if e.sent == 0 then e.(st := Announcing, numConflicts := 0) else e;
      var s2 := Note(s1, AnnounceSent(e.ip)).(e := e1.(st := Ongoing, sent := 0, ttw := PERIODIC_DEFEND_TICKS));
      CallbackStartsNothing(s2, IpOk, maxAttempts);
      CallbackStartsNothing(StopEngine(s1), RestartClient, maxAttempts);
    }
  }

  // ---- What the platform owes -------------------------------------------------

  // The event comes to a pending address with a MAC address but without a link.
  predicate PutOff(s: Sys, ev: Event) {
    !s.p.linkUp &&
    match ev
    case Configure(_, _, _) => s.p.hwValid
    case LinkEvent(_, _) => s.c.pending
    case DeferredTimeout(_, _) => s.c.pending && s.p.hwValid
    case RetryTimer(queued, _, _) => !queued && s.c.retryTarget && s.p.hwValid
    case RetryCallback(_, _) => s.c.retryTarget && s.c.pending && s.p.hwValid
    case _ => false
  }

  function One(b: bool): nat { if b then 1 else 0 }

  predicate Conflict(c: Coordinator) { c.received && !c.last.IpOk? }

  lemma TryPendingOwes(s: Sys, alloc: Alloc, rand: nat)
    requires !s.c.semMade ==> !s.c.received
    ensures var (t, blocked) := TryPending(s, alloc, rand);
            && blocked == (s.c.pending && s.p.hwValid && s.p.linkUp && Succeeds(s, alloc))
            && t.p == s.p.(deferred := s.p.deferred + One(s.c.pending && s.p.hwValid && !s.p.linkUp))
  {
    hide Perform, AfterPerform;
    var s1 := s.(c := s.c.(activity := 2));
    PerformOwes(s1, alloc, rand);
    AfterPerformOwes(Perform(s1, alloc, rand).0);
  }

  lemma PerformOwes(s: Sys, alloc: Alloc, rand: nat)
    requires !s.c.semMade ==> !s.c.received
    ensures var (t, blocked) := Perform(s, alloc, rand); blocked == Succeeds(s, alloc) && t.p == s.p && (!blocked ==> !t.c.received)
  {
  }

  lemma AfterPerformOwes(s: Sys)
    ensures !s.c.received ==> AfterPerform(s).p == s.p
  {
  }

  // Whether the allocations succeed depends on what exists already.
  lemma SucceedsBy(s: Sys, alloc: Alloc)
    ensures forall t: Sys :: t.c.semMade == s.c.semMade && t.c.regSemMade == s.c.regSemMade ==>
              Succeeds(t, alloc) == Succeeds(s, alloc)
  {
  }

  lemma TryPendingThenReturnOwes(s: Sys, alloc: Alloc, rand: nat)
    requires !s.c.semMade ==> !s.c.received
    ensures var tried := s.c.pending && s.p.hwValid && s.p.linkUp && Succeeds(s, alloc);
            TryPendingThenReturn(s, alloc, rand).p
            == s.p.(deferred := s.p.deferred + One(s.c.pending && s.p.hwValid && !s.p.linkUp),
                    otherWaiters := s.p.otherWaiters + One(tried))
  {
    hide TryPending;
    TryPendingOwes(s, alloc, rand);
  }

  lemma CallbackOwesNothing(s: Sys, v: Verdict, maxAttempts: nat)
    ensures Callback(s, v, maxAttempts).p == s.p
  {
  }

  lemma EngineOwesNothing(s: Sys, maxAttempts: nat)
    ensures Tick(s, maxAttempts).p == s.p && Restart(s, maxAttempts).p == s.p
  {
    hide Callback;
    var s1 := s.(e := s.e.(lastConflict := CountDown(s.e.lastConflict), ttw := CountDown(s.e.ttw)));
    var e1 := if s1.e.sent == 0 then s1.e.(st := Announcing, numConflicts := 0) else s1.e;
    CallbackOwesNothing(Note(s1, AnnounceSent(s1.e.ip)).(e := e1.(st := Ongoing, sent := 0, ttw := PERIODIC_DEFEND_TICKS)), IpOk,
                        maxAttempts);
    CallbackOwesNothing(StopEngine(s1), RestartClient, maxAttempts);
    var s2 := s.(e := s.e.(numConflicts := (s.e.numConflicts + 1) % 256));
    CallbackOwesNothing(s2, Decline, maxAttempts);
    CallbackOwesNothing(StopEngine(Callback(s2, Decline, maxAttempts)), RestartClient, maxAttempts);
  }

  // What an event adds to, and takes from, the work that is owed: a link event is followed by a timeout, at once or when
  // its task has waited; an attempt without a link sets a timeout; an attempt that starts a probe waits until it is woken;
  // and whoever finds a conflict on waking has the engine stopped.
  ghost predicate Conserves(s: Sys, ev: Event, q: Platform) {
    var p := s.p;
    && q.deferred + q.linkWaiters + One(ev.DeferredTimeout?)
       == p.deferred + p.linkWaiters + One(ev.LinkEvent?) + One(PutOff(s, ev))
    && q.linkWaiters + One(ev.Wake? && ev.fromLink) == p.linkWaiters + One(ev.LinkEvent? && StartsProbe(s, ev))
    && q.otherWaiters + One(ev.Wake? && !ev.fromLink) == p.otherWaiters + One(!ev.LinkEvent? && StartsProbe(s, ev))
    && q.queuedRetries + One(ev.RetryCallback?) == p.queuedRetries + One(ev.RetryTimer? && ev.queued && s.c.retryTarget)
    && q.queuedStops + One(ev.StopCallback?)
       == p.queuedStops + One(ev.LinkLostEvent?) + One(ev.Wake? && Conflict(s.c))
          + One(ev.Wake? && !s.c.last.IpOk? && (ev.timedOut || !s.c.semGiven))
    && q.hwValid == (p.hwValid || ev.LinkEvent?)
    && q.linkUp == if ev.LinkFlag? then ev.up else p.linkUp
  }

  lemma LinkEventConserves(s: Sys, alloc: Alloc, rand: nat)
    requires !s.c.semMade ==> !s.c.received
    ensures Conserves(s, LinkEvent(alloc, rand), OnLinkEvent(s, alloc, rand).p)
  {
    hide TryPending;
    TryPendingOwes(s.(p := s.p.(hwValid := true)), alloc, rand);
  }

  lemma DeferredConserves(s: Sys, alloc: Alloc, rand: nat)
    requires s.p.deferred > 0 && (!s.c.semMade ==> !s.c.received)
    ensures Conserves(s, DeferredTimeout(alloc, rand), OnDeferred(s, alloc, rand).p)
  {
    hide TryPendingThenReturn;
    TryPendingThenReturnOwes(s.(p := s.p.(deferred := CountDown(s.p.deferred))), alloc, rand);
  }

  lemma RetryTimerOwes(s: Sys, queued: bool, alloc: Alloc, rand: nat)
    requires !s.c.semMade ==> !s.c.received
    ensures var now := s.c.retryTarget && !queued;
            OnRetryTimer(s, queued, alloc, rand).p
            == s.p.(deferred := s.p.deferred + One(now && s.p.hwValid && !s.p.linkUp),
                    otherWaiters := s.p.otherWaiters + One(now && s.p.hwValid && s.p.linkUp && Succeeds(s, alloc)),
                    queuedRetries := s.p.queuedRetries + One(s.c.retryTarget && queued))
  {
    hide TryPendingThenReturn, Succeeds;
    SucceedsBy(s, alloc);
    TryPendingThenReturnOwes(Note(s.(c := s.c.(timerArmed := false, pending := true)), RetryExpired), alloc, rand);
  }

  lemma RetryTimerConserves(s: Sys, queued: bool, alloc: Alloc, rand: nat)
    requires !s.c.semMade ==> !s.c.received
    ensures Conserves(s, RetryTimer(queued, alloc, rand), OnRetryTimer(s, queued, alloc, rand).p)
  {
    hide OnRetryTimer, Succeeds;
    RetryTimerOwes(s, queued, alloc, rand);
  }

  lemma RetryCallbackConserves(s: Sys, alloc: Alloc, rand: nat)
    requires s.p.queuedRetries > 0 && (!s.c.semMade ==> !s.c.received)
    ensures Conserves(s, RetryCallback(alloc, rand), OnRetryCallback(s, alloc, rand).p)
  {
    hide TryPendingThenReturn;
    TryPendingThenReturnOwes(s.(p := s.p.(queuedRetries := CountDown(s.p.queuedRetries))), alloc, rand);
  }

  lemma ConfigureConserves(s: Sys, ip: Ip4, alloc: Alloc, rand: nat)
    requires !s.c.semMade ==> !s.c.received
    ensures Conserves(s, Configure(ip, alloc, rand), OnConfigure(s, ip, alloc, rand).p)
  {
    hide TryPendingThenReturn;
    TryPendingThenReturnOwes(s.(c := s.c.(configured := true, cfg := ip, pending := true, activity := 1)), alloc, rand);
  }

  lemma WakeConserves(s: Sys, fromLink: bool, timedOut: bool)
    requires Enabled(s, Wake(fromLink, timedOut))
    ensures Conserves(s, Wake(fromLink, timedOut), OnWake(s, fromLink, timedOut).p)
  {
  }

  lemma HearArpOwesNothing(s: Sys, sender: Ip4, target: Ip4, foreign: bool, maxAttempts: nat)
    ensures HearArp(s, sender, target, foreign, maxAttempts).p == s.p
  {
    hide Restart, Tick;
    EngineOwesNothing(s, maxAttempts);
  }

  lemma WorkIsConserved(s: Sys, ev: Event, maxAttempts: nat)
    requires Enabled(s, ev) && (!s.c.semMade ==> !s.c.received)
    ensures Conserves(s, ev, Step(s, ev, maxAttempts).p)
  {
    hide OnConfigure, OnLinkEvent, OnDeferred, OnRetryTimer, OnRetryCallback, OnWake, Tick, HearArp, Restart;
    match ev
    case Configure(ip, alloc, rand) => ConfigureConserves(s, ip, alloc, rand);
    case LinkEvent(alloc, rand) => LinkEventConserves(s, alloc, rand);
    case DeferredTimeout(alloc, rand) => DeferredConserves(s, alloc, rand);
    case RetryTimer(queued, alloc, rand) => RetryTimerConserves(s, queued, alloc, rand);
    case RetryCallback(alloc, rand) => RetryCallbackConserves(s, alloc, rand);
    case EngineTick => EngineOwesNothing(Note(s, Ticked), maxAttempts);
    case ArpHeard(sender, target, foreign) =>
      HearArpOwesNothing(Note(s, Heard(sender, target, foreign)), sender, target, foreign, maxAttempts);
    case Wake(fromLink, timedOut) => WakeConserves(s, fromLink, timedOut);
    case StopCallback =>
    case LinkFlag(_) =>
    case LinkLostEvent =>
  }

  // So an attempt that cannot be made yet is not forgotten: while the link flag is down a timeout is set for it.
  lemma AttemptStaysDue(s: Sys, ev: Event, maxAttempts: nat)
    requires Enabled(s, ev) && PutOff(s, ev) && !ev.Configure? && !ev.RetryTimer?
    ensures var t := Step(s, ev, maxAttempts);
            t.p.deferred > 0 && t.p.hwValid && t.c == s.c && t.e == s.e
  {
  }

  // ---- Attempts that fail, and waits that end ---------------------------------

  // An allocation that fails: the fault is reported, old verdicts are forgotten, the address stays pending, and neither
  // the engine nor the address in use changes.
  lemma FailedAttempt(s: Sys, ev: Event, maxAttempts: nat)
    requires Enabled(s, ev) && Tries(s, ev) && !Succeeds(s, ev.alloc) && (!s.c.semMade ==> !s.c.received && s.c.last.IpOk?)
    ensures var t := Step(s, ev, maxAttempts);
            && t.e == s.e && t.c.addr == s.c.addr && t.c.pending && t.c.fault && t.c.activity == 1
            && !t.c.received && t.c.last.IpOk? && t.c.registered == s.c.registered
            && t.c.retryCount == s.c.retryCount && Starts(t.h) == Starts(s.h)
  {
    hide AfterPerform;
    match ev
    case Configure(ip, alloc, rand) =>
      TryFails(s.(c := s.c.(configured := true, cfg := ip, pending := true, activity := 1)), alloc, rand);
    case LinkEvent(alloc, rand) => TryFails(s.(p := s.p.(hwValid := true)), alloc, rand);
    case DeferredTimeout(alloc, rand) => TryFails(s.(p := s.p.(deferred := CountDown(s.p.deferred))), alloc, rand);
    case RetryTimer(queued, alloc, rand) =>
      TryFails(Note(s.(c := s.c.(timerArmed := false, pending := true)), RetryExpired), alloc, rand);
    case RetryCallback(alloc, rand) =>
      TryFails(s.(p := s.p.(queuedRetries := CountDown(s.p.queuedRetries))), alloc, rand);
  }

  lemma TryFails(s: Sys, alloc: Alloc, rand: nat)
    requires s.c.pending && s.p.hwValid && s.p.linkUp && !Succeeds(s, alloc)
    requires !s.c.semMade ==> !s.c.received && s.c.last.IpOk?
    ensures var (t, blocked) := TryPending(s, alloc, rand);
            && !blocked && t.e == s.e && t.c.addr == s.c.addr && t.c.pending && t.c.fault && t.c.activity == 1
            && !t.c.received && t.c.last.IpOk? && t.c.registered == s.c.registered
            && t.c.retryCount == s.c.retryCount && Starts(t.h) == Starts(s.h)
  {
  }

  // A client that is still registered keeps its count of conflicts from probe to probe; a new one begins at 0.
  lemma ProbeKeepsConflicts(s: Sys, ev: Event, maxAttempts: nat)
    requires Enabled(s, ev) && StartsProbe(s, ev) && (s.c.registered ==> s.e.listed)
    ensures Step(s, ev, maxAttempts).e.numConflicts == if s.c.registered then s.e.numConflicts else 0
  {
    hide TryPending;
    match ev
    case Configure(ip, alloc, rand) =>
      TryKeepsConflicts(s.(c := s.c.(configured := true, cfg := ip, pending := true, activity := 1)), alloc, rand);
    case LinkEvent(alloc, rand) => TryKeepsConflicts(s.(p := s.p.(hwValid := true)), alloc, rand);
    case DeferredTimeout(alloc, rand) => TryKeepsConflicts(s.(p := s.p.(deferred := CountDown(s.p.deferred))), alloc, rand);
    case RetryTimer(queued, alloc, rand) =>
      TryKeepsConflicts(Note(s.(c := s.c.(timerArmed := false, pending := true)), RetryExpired), alloc, rand);
    case RetryCallback(alloc, rand) =>
      TryKeepsConflicts(s.(p := s.p.(queuedRetries := CountDown(s.p.queuedRetries))), alloc, rand);
  }

  lemma TryKeepsConflicts(s: Sys, alloc: Alloc, rand: nat)
    requires s.c.pending && s.p.hwValid && s.p.linkUp && Succeeds(s, alloc)
    ensures TryPending(s, alloc, rand).0.e.numConflicts == if s.c.registered then s.e.numConflicts else 0
  {
  }

  // A task that is woken: a confirmed address goes into use, a conflict ends the attempt with the fault, and without a
  // verdict the attempt stays open.
  lemma WakeDecides(s: Sys, fromLink: bool, timedOut: bool, maxAttempts: nat)
    requires Enabled(s, Wake(fromLink, timedOut))
    ensures var t := Step(s, Wake(fromLink, timedOut), maxAttempts);
            && t.e == s.e
            && t.c.addr == (if s.c.received && s.c.last.IpOk? then s.c.cfg else s.c.addr)
            && t.h == (if s.c.received && s.c.last.IpOk? then Then(s.h, Obs.Installed(s.c.cfg)) else s.h)
            && t.c.pending == (s.c.pending && !s.c.received)
            && t.c.fault == (s.c.fault || Conflict(s.c)) && t.c.activity == (if Conflict(s.c) then 3 else 1)
            && t.c.received == s.c.received && t.c.last == s.c.last && t.c.retryCount == s.c.retryCount
            && t.c.semGiven == (s.c.semGiven && timedOut) && t.c.timerArmed == s.c.timerArmed
  {
  }

  // ---- From an attempt to the address ---------------------------------------

  lemma ReachableStep(s: Sys, ev: Event, maxAttempts: nat)
    requires Reachable(s, maxAttempts) && Enabled(s, ev)
    ensures Reachable(Step(s, ev, maxAttempts), maxAttempts)
  {
    hide Step, Enabled;
    var evs :| Legal(BOOT, evs, maxAttempts) && After(BOOT, evs, maxAttempts) == s;
    var t := Step(s, ev, maxAttempts);
    assert [ev][1..] == [];
    assert Legal(t, [], maxAttempts) && After(t, [], maxAttempts) == t;
    assert Legal(s, [ev], maxAttempts) && After(s, [ev], maxAttempts) == t;
    RunsCompose(BOOT, evs, [ev], maxAttempts);
  }

  lemma ReachableIsListed(s: Sys, maxAttempts: nat)
    requires Reachable(s, maxAttempts)
    ensures s.c.registered ==> s.e.listed
  {
    AcdSafety.ReachableInv(s, maxAttempts);
  }

  // From every reachable state: an event that starts a probe, be it the configuration, the link, a deferred timeout or a
  // retry whose callback was queued or not, and 85 ticks of any run without disturbance put the wanted address into use.
  lemma AttemptInstalls(s: Sys, ev: Event, evs: seq<Event>, maxAttempts: nat)
    requires Reachable(s, maxAttempts) && Enabled(s, ev) && StartsProbe(s, ev)
    requires var t := Step(s, ev, maxAttempts); Legal(t, evs, maxAttempts) && AllUndisturbed(t, evs, maxAttempts)
    requires TickCount(evs) >= UNDISTURBED_TICKS
    ensures var t := Step(s, ev, maxAttempts);
            InUse(After(t, evs, maxAttempts), t.c.cfg) && t.c.cfg == if ev.Configure? then ev.ip else s.c.cfg
  {
    var t := Step(s, ev, maxAttempts);
    ReachableIsListed(s, maxAttempts);
    StartsIff(s, ev, maxAttempts);
    ReachableStep(s, ev, maxAttempts);
    ConfigureSetsAddress(s, ev, maxAttempts);
    hide Step, Enabled, StartsProbe, InUse;
    UndisturbedRunInstalls(t, evs, maxAttempts);
  }

  lemma ConfigureSetsAddress(s: Sys, ev: Event, maxAttempts: nat)
    ensures ev.Configure? ==> Step(s, ev, maxAttempts).c.cfg == ev.ip
  {
    hide TryPending;
    if ev.Configure? {
      TryKeepsAddress(s.(c := s.c.(configured := true, cfg := ev.ip, pending := true, activity := 1)), ev.alloc, ev.rand);
    }
  }

  lemma TryKeepsAddress(s: Sys, alloc: Alloc, rand: nat)
    ensures TryPending(s, alloc, rand).0.c.cfg == s.c.cfg
  {
    hide Perform, AfterPerform;
    var s1 := s.(c := s.c.(activity := 2));
    PerformKeepsAddress(s1, alloc, rand);
    assert AfterPerform(Perform(s1, alloc, rand).0).c.cfg == s.c.cfg by {
      AfterPerformKeepsAddress(Perform(s1, alloc, rand).0);
    }
  }

  lemma PerformKeepsAddress(s: Sys, alloc: Alloc, rand: nat)
    ensures Perform(s, alloc, rand).0.c.cfg == s.c.cfg
  {
  }

  lemma AfterPerformKeepsAddress(s: Sys)
    ensures AfterPerform(s).c.cfg == s.c.cfg
  {
  }

  // Boot with the cable plugged in late: the link event comes in front of the link flag, so the attempt is put off, and
  // the deferred timeout makes it.
  ghost function LateLink(ip: Ip4): seq<Event> {
    [Configure(ip, AllocOk, 0), LinkEvent(AllocOk, 0), LinkFlag(true)]
  }

  lemma LateLinkEffect(ip: Ip4, maxAttempts: nat)
    requires ip != 0
    ensures Legal(BOOT, LateLink(ip), maxAttempts)
    ensures var s := After(BOOT, LateLink(ip), maxAttempts);
            s.c.pending && s.c.cfg == ip && s.p.hwValid && s.p.linkUp && s.p.deferred > 0 && s.e.st.Off?
  {
    var evs := LateLink(ip);
    var s1 := Step(BOOT, evs[0], maxAttempts);
    assert s1.c.pending && s1.c.cfg == ip && !s1.p.linkUp && s1.e == BOOT.e;
    var s2 := Step(s1, evs[1], maxAttempts);
    AttemptStaysDue(s1, evs[1], maxAttempts);
    var s3 := Step(s2, evs[2], maxAttempts);
    hide Step;
    assert evs[1..] == [evs[1], evs[2]] && evs[1..][1..] == [evs[2]] && [evs[2]][1..] == [];
    assert Legal(s2, [evs[2]], maxAttempts) && After(s2, [evs[2]], maxAttempts) == s3;
    assert Legal(s1, evs[1..], maxAttempts) && After(s1, evs[1..], maxAttempts) == s3;
  }

  lemma LateLinkInstalls(ip: Ip4, rand: nat, evs: seq<Event>, maxAttempts: nat)
    requires ip != 0 && TickCount(evs) >= UNDISTURBED_TICKS
    requires var s := After(BOOT, LateLink(ip), maxAttempts);
             var t := Step(s, DeferredTimeout(AllocOk, rand), maxAttempts);
             Legal(t, evs, maxAttempts) && AllUndisturbed(t, evs, maxAttempts)
    ensures var s := After(BOOT, LateLink(ip), maxAttempts);
            && Enabled(s, DeferredTimeout(AllocOk, rand))
            && InUse(After(Step(s, DeferredTimeout(AllocOk, rand), maxAttempts), evs, maxAttempts), ip)
  {
    LateLinkEffect(ip, maxAttempts);
    var s := After(BOOT, LateLink(ip), maxAttempts);
    hide LateLink, Step, InUse;
    AttemptInstalls(s, DeferredTimeout(AllocOk, rand), evs, maxAttempts);
  }

  // ---- A stopped engine -------------------------------------------------------

  // The queued stop and a lost link stop the engine; each loss of the link queues a stop.
  lemma StopsEngine(s: Sys, ev: Event, maxAttempts: nat)
    requires Enabled(s, ev) && (s.p.linkUp || !ev.LinkFlag?)
    ensures var t := Step(s, ev, maxAttempts);
            && (ev.StopCallback? ==> t.e == s.e.(st := Off) && t.p.queuedStops == s.p.queuedStops - 1)
            && (ev == LinkFlag(false) ==> !t.p.linkUp && (s.e.listed ==> t.e == s.e.(st := Off)))
            && (ev.LinkLostEvent? ==> t.p.queuedStops == s.p.queuedStops + 1 && t.e == s.e)
  {
  }

  // What a stopped engine may go through without a new attempt
  predicate NoAttempt(ev: Event) {
    ev.EngineTick? || ev.ArpHeard? || ev.LinkFlag? || ev.LinkLostEvent? || ev.StopCallback?
  }

  ghost predicate NothingSent(h: History, h': History)
    decreases h'
  {
    h' == h || (h'.Then? && (h'.now.Ticked? || h'.now.Heard?) && NothingSent(h, h'.past))
  }

  // A stopped engine sends nothing and tells nothing, whatever it hears, until the next attempt.
  lemma {:induction false} StoppedIsSilent(s: Sys, evs: seq<Event>, h: History, maxAttempts: nat)
    requires s.e.st.Off? && Legal(s, evs, maxAttempts) && NothingSent(h, s.h) && forall ev :: ev in evs ==> NoAttempt(ev)
    ensures var t := After(s, evs, maxAttempts); t.e.st.Off? && t.c == s.c && NothingSent(h, t.h)
    decreases |evs|
  {
    if evs != [] {
      assert evs[0] in evs;
      StoppedStep(s, evs[0], h, maxAttempts);
      hide Step, Enabled;
      StoppedIsSilent(Step(s, evs[0], maxAttempts), evs[1..], h, maxAttempts);
    }
  }

  lemma StoppedStep(s: Sys, ev: Event, h: History, maxAttempts: nat)
    requires s.e.st.Off? && Enabled(s, ev) && NoAttempt(ev) && NothingSent(h, s.h)
    ensures var t := Step(s, ev, maxAttempts); t.e.st.Off? && t.c == s.c && NothingSent(h, t.h)
  {
    hide Callback, Restart;
  }
}
