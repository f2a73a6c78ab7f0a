/**
  How often the retry timer can drive a new attempt. Because the engine reports one conflict with two
  verdicts (acd_restart), and each verdict counts as an attempt, a limit of M attempts allows no more than
  M / 2 (rounded up) timer-driven retries after a conflict, and a persistent conflict uses exactly that many.
*/
module AcdRetry {
  import opened AcdModel

  // Retry-timer expiries since the last IpOk, read off the history.
  ghost function ExpiriesSinceOk(h: History): nat {
    match h
    case Nothing => 0
    case Then(past, o) =>
      if o.Told? && o.v.IpOk? then 0
      else ExpiriesSinceOk(past) + if o.RetryExpired? then 1 else 0
  }

  // Each expiry, past or armed, is paid for by two counted attempts, except the one that meets the limit.
  ghost predicate Paid(c: Coordinator, expiries: nat, maxAttempts: nat) {
    && c.retryCount <= maxAttempts
    && (c.retryCount % 2 == 0 || c.retryCount == maxAttempts)
    && 2 * (expiries + if c.timerArmed then 1 else 0) <= c.retryCount + 1
    && (c.timerArmed ==> c.retryTarget)
  }

  // A registered client that ran into a conflict has used up its attempts.
  ghost predicate ConflictsAccounted(e: Engine, c: Coordinator, maxAttempts: nat) {
    && (c.registered && e.numConflicts != 0 ==> c.retryCount == maxAttempts)
    && (e.st.Announcing? ==> e.numConflicts == 0)
    && (e.st.AnnounceWait? ==> e.sent == 0)
    && (!e.st.Off? ==> c.registered)
    && (e.st.RateLimit? ==> c.retryCount == maxAttempts)
    && e.numConflicts < 256
  }

  ghost predicate RetryInv(s: Sys, maxAttempts: nat) {
    && maxAttempts > 0
    && Paid(s.c, ExpiriesSinceOk(s.h), maxAttempts)
    && ConflictsAccounted(s.e, s.c, maxAttempts)
  }

  lemma OkCallbackRetryInv(s: Sys, maxAttempts: nat)
    requires RetryInv(s, maxAttempts) && s.e.numConflicts == 0 && s.e.st.Ongoing?
    ensures RetryInv(Callback(s, IpOk, maxAttempts), maxAttempts)
  {
  }

  // What one conflict verdict changes.
  lemma ConflictCallbackEffect(s: Sys, v: Verdict, maxAttempts: nat)
    requires maxAttempts > 0 && !v.IpOk?
    ensures var t := Callback(s, v, maxAttempts);
            var retry := s.c.retryCount < maxAttempts;
            && t.e == (if retry && s.c.registered then s.e.(st := Off) else s.e)
            && t.p == s.p
            && t.c.retryCount == s.c.retryCount + (if retry then 1 else 0)
            && t.c.timerArmed == (s.c.timerArmed || retry)
            && t.c.retryTarget == (s.c.retryTarget || retry)
            && t.c.registered == (s.c.registered && !retry)
            && t.c.pending == s.c.pending && t.c.cfg == s.c.cfg && t.c.configured == s.c.configured
            && t.c.semMade == s.c.semMade && t.c.regSemMade == s.c.regSemMade && t.c.received && t.c.last == v
            && ExpiriesSinceOk(t.h) == ExpiriesSinceOk(s.h)
  {
  }

  // The same for the two verdicts of one conflict: the count goes up by two, or to the limit.
  lemma RestartEffect(s: Sys, maxAttempts: nat)
    requires maxAttempts > 0 && s.c.registered && s.c.retryCount <= maxAttempts
    requires s.c.retryCount < maxAttempts ==> s.e.numConflicts == 0
    ensures var t := Restart(s, maxAttempts);
            var retry := s.c.retryCount < maxAttempts;
            && t.p == s.p
            && t.e.numConflicts == (s.e.numConflicts + 1) % 256 && t.e.listed == s.e.listed
            && (t.e.st.Off? || (t.e.st.RateLimit? && !retry))
            && t.c.registered == !retry
            && t.c.retryCount == (if s.c.retryCount + 2 <= maxAttempts then s.c.retryCount + 2 else maxAttempts)
            && t.c.timerArmed == (s.c.timerArmed || retry)
            && t.c.retryTarget == (s.c.retryTarget || retry)
            && t.c.pending == s.c.pending && t.c.cfg == s.c.cfg && t.c.configured == s.c.configured
            && t.c.semMade == s.c.semMade && t.c.regSemMade == s.c.regSemMade && t.c.received && !t.c.last.IpOk?
            && ExpiriesSinceOk(t.h) == ExpiriesSinceOk(s.h)
  {
    hide Callback, ExpiriesSinceOk;
    var s1 := s.(e := s.e.(numConflicts := (s.e.numConflicts + 1) % 256));
    var s2 := Callback(s1, Decline, maxAttempts);
    ConflictCallbackEffect(s1, Decline, maxAttempts);
    if s2.e.numConflicts < MAX_CONFLICTS {
      ConflictCallbackEffect(StopEngine(s2), RestartClient, maxAttempts);
    }
  }

  // Every conflict wakes a waiting task.
  lemma RestartSignals(s: Sys, maxAttempts: nat)
    requires s.c.semMade
    ensures Restart(s, maxAttempts).c.semGiven
  {
    hide Callback;
    var s1 := s.(e := s.e.(numConflicts := (s.e.numConflicts + 1) % 256));
    CallbackSignals(s1, Decline, maxAttempts);
    CallbackSignals(StopEngine(Callback(s1, Decline, maxAttempts)), RestartClient, maxAttempts);
  }

  lemma CallbackSignals(s: Sys, v: Verdict, maxAttempts: nat)
    requires s.c.semMade
    ensures Callback(s, v, maxAttempts).c.semMade && Callback(s, v, maxAttempts).c.semGiven
  {
    hide Refuse, Confirm;
    var s1 := s.(c := s.c.(last := v, received := true), h := Then(s.h, Told(v)));
    ConfirmKeepsSemaphore(s1);
    RefuseKeepsSemaphore(s1, maxAttempts);
  }

  lemma ConfirmKeepsSemaphore(s: Sys)
    ensures Confirm(s).c.semMade == s.c.semMade
  {
  }

  lemma RefuseKeepsSemaphore(s: Sys, maxAttempts: nat)
    ensures Refuse(s, maxAttempts).c.semMade == s.c.semMade
  {
    hide StartRetry;
    StartRetryKeepsSemaphore(s.(c := s.c.(fault := true, activity := 3)));
  }

  lemma StartRetryKeepsSemaphore(s: Sys)
    ensures StartRetry(s).c.semMade == s.c.semMade
  {
  }

  lemma RestartRetryInv(s: Sys, maxAttempts: nat)
    requires RetryInv(s, maxAttempts) && s.c.registered
    ensures RetryInv(Restart(s, maxAttempts), maxAttempts)
  {
    hide Restart;
    RestartEffect(s, maxAttempts);
  }

  lemma HearArpRetryInv(s: Sys, sender: Ip4, target: Ip4, foreign: bool, maxAttempts: nat)
    requires RetryInv(s, maxAttempts)
    ensures RetryInv(HearArp(s, sender, target, foreign, maxAttempts), maxAttempts)
  {
    if s.e.listed {
      if InProbePhase(s.e) {
        RestartRetryInv(s, maxAttempts);
      } else if (s.e.st.Announcing? || s.e.st.Ongoing?) && s.e.lastConflict > 0 {
        RestartRetryInv(s, maxAttempts);
      }
    }
  }

  lemma TickRetryInv(s: Sys, maxAttempts: nat)
    requires RetryInv(s, maxAttempts)
    ensures RetryInv(Tick(s, maxAttempts), maxAttempts)
  {
    if s.e.listed {
      var s1 := s.(e := s.e.(lastConflict := CountDown(s.e.lastConflict), ttw := CountDown(s.e.ttw)));
      assert RetryInv(s1, maxAttempts);
      TickBodyRetryInv(s1, maxAttempts);
    }
  }

  lemma TickBodyRetryInv(s: Sys, maxAttempts: nat)
    requires RetryInv(s, maxAttempts)
    ensures RetryInv(TickBody(s, maxAttempts), maxAttempts)
  {
    var e := s.e;
    if e.ttw == 0 {
      if e.st.Announcing? && e.sent + 1 >= ANNOUNCE_NUM {
        var s1 := Note(s, AnnounceSent(e.ip));
        OkCallbackRetryInv(s1.(e := e.(st := Ongoing, sent := 0, ttw := PERIODIC_DEFEND_TICKS)), maxAttempts);
      } else if e.st.RateLimit? {
        ConflictCallbackEffect(StopEngine(s), RestartClient, maxAttempts);
      }
    }
  }

  lemma PerformRetryInv(s: Sys, alloc: Alloc, rand: nat, maxAttempts: nat)
    requires RetryInv(s, maxAttempts)
    ensures RetryInv(Perform(s, alloc, rand).0, maxAttempts)
  {
    var t := Perform(s, alloc, rand).0;
    assert ExpiriesSinceOk(t.h) == ExpiriesSinceOk(s.h);
    assert t.c.retryCount == s.c.retryCount && t.c.timerArmed == s.c.timerArmed && t.c.retryTarget == s.c.retryTarget;
  }

  lemma AfterPerformRetryInv(s: Sys, maxAttempts: nat)
    requires RetryInv(s, maxAttempts)
    ensures RetryInv(AfterPerform(s), maxAttempts)
  {
    var t := AfterPerform(s);
    assert ExpiriesSinceOk(t.h) == ExpiriesSinceOk(s.h);
    assert t.e == s.e;
  }

  lemma TryPendingRetryInv(s: Sys, alloc: Alloc, rand: nat, maxAttempts: nat)
    requires RetryInv(s, maxAttempts)
    ensures RetryInv(TryPending(s, alloc, rand).0, maxAttempts)
    ensures RetryInv(TryPendingThenReturn(s, alloc, rand), maxAttempts)
  {
    var s1 := s.(c := s.c.(activity := 2));
    PerformRetryInv(s1, alloc, rand, maxAttempts);
    AfterPerformRetryInv(Perform(s1, alloc, rand).0, maxAttempts);
  }

  lemma OnRetryTimerRetryInv(s: Sys, queued: bool, alloc: Alloc, rand: nat, maxAttempts: nat)
    requires RetryInv(s, maxAttempts) && s.c.timerArmed
    ensures RetryInv(OnRetryTimer(s, queued, alloc, rand), maxAttempts)
  {
    var s1 := Note(s.(c := s.c.(timerArmed := false)), RetryExpired);
    var s2 := s1.(c := s1.c.(pending := true));
    assert RetryInv(s2, maxAttempts);
    TryPendingRetryInv(s2, alloc, rand, maxAttempts);
  }

  lemma OnWakeRetryInv(s: Sys, fromLink: bool, timedOut: bool, maxAttempts: nat)
    requires RetryInv(s, maxAttempts)
    ensures RetryInv(OnWake(s, fromLink, timedOut), maxAttempts)
  {
    hide AfterPerform;
    var t := EndWait(s, timedOut);
    assert t.e == s.e && t.h == s.h && t.c == s.c.(semGiven := t.c.semGiven, activity := t.c.activity);
    AfterPerformRetryInv(t, maxAttempts);
  }

  lemma StepRetryInv(s: Sys, ev: Event, maxAttempts: nat)
    requires RetryInv(s, maxAttempts) && Enabled(s, ev)
    ensures RetryInv(Step(s, ev, maxAttempts), maxAttempts)
  {
    match ev
    case Configure(ip, alloc, rand) =>
      TryPendingRetryInv(s.(c := s.c.(configured := true, cfg := ip, pending := true, activity := 1)), alloc, rand, maxAttempts);
    case LinkEvent(alloc, rand) =>
      TryPendingRetryInv(s.(p := s.p.(hwValid := true)), alloc, rand, maxAttempts);
    case LinkLostEvent =>
    case LinkFlag(up) =>
    case DeferredTimeout(alloc, rand) =>
      TryPendingRetryInv(s.(p := s.p.(deferred := CountDown(s.p.deferred))), alloc, rand, maxAttempts);
    case RetryTimer(queued, alloc, rand) => OnRetryTimerRetryInv(s, queued, alloc, rand, maxAttempts);
    case RetryCallback(alloc, rand) =>
      TryPendingRetryInv(s.(p := s.p.(queuedRetries := CountDown(s.p.queuedRetries))), alloc, rand, maxAttempts);
    case StopCallback =>
    case Wake(fromLink, timedOut) => OnWakeRetryInv(s, fromLink, timedOut, maxAttempts);
    case EngineTick => TickRetryInv(Note(s, Ticked), maxAttempts);
    case ArpHeard(sender, target, foreign) =>
      HearArpRetryInv(Note(s, Heard(sender, target, foreign)), sender, target, foreign, maxAttempts);
  }

  lemma {:induction false} RunRetryInv(s: Sys, evs: seq<Event>, maxAttempts: nat)
    requires RetryInv(s, maxAttempts) && Legal(s, evs, maxAttempts)
    ensures RetryInv(After(s, evs, maxAttempts), maxAttempts)
    decreases |evs|
  {
    hide Step;
    if evs != [] {
      StepRetryInv(s, evs[0], maxAttempts);
      RunRetryInv(Step(s, evs[0], maxAttempts), evs[1..], maxAttempts);
    }
  }

  // The retry count never exceeds the limit, and since the last IpOk the retry timer has expired at most
  // half as often, rounded up, counting the expiry that an armed timer still owes.
  lemma RetriesAreBounded(t: Sys, maxAttempts: nat)
    requires maxAttempts > 0 && Reachable(t, maxAttempts)
    ensures t.c.retryCount <= maxAttempts
    ensures ExpiriesSinceOk(t.h) + (if t.c.timerArmed then 1 else 0) <= (maxAttempts + 1) / 2
    ensures ExpiriesSinceOk(t.h) <= t.c.retryCount
  {
    var evs :| Legal(BOOT, evs, maxAttempts) && After(BOOT, evs, maxAttempts) == t;
    RunRetryInv(BOOT, evs, maxAttempts);
  }

  // ---- The bound is met ---------------------------------------------------

  // Boot with a link, and a host that already uses the address: the event task waits while the network task hears it.
  ghost function BootConflict(ip: Ip4): seq<Event> {
    [Configure(ip, AllocOk, 0), LinkFlag(true), LinkEvent(AllocOk, 0), ArpHeard(ip, 0, true), Wake(true, false)]
  }

  // The retry timer expires, the network task itself probes again and waits in vain, then it hears the same host.
  ghost function ConflictRound(ip: Ip4): seq<Event> {
    [RetryTimer(true, AllocOk, 0), RetryCallback(AllocOk, 0), Wake(false, true), ArpHeard(ip, 0, true)]
  }

  ghost function PersistentConflict(ip: Ip4, rounds: nat): seq<Event> {
    if rounds == 0 then BootConflict(ip) else PersistentConflict(ip, rounds - 1) + ConflictRound(ip)
  }

  ghost predicate BetweenRounds(s: Sys, ip: Ip4, maxAttempts: nat) {
    && RetryInv(s, maxAttempts)
    && s.c.configured && s.c.cfg == ip && s.c.semMade && s.c.regSemMade
    && s.p.linkUp && s.p.hwValid && s.p.queuedRetries == 0 && s.p.otherWaiters == 0
    && (s.c.registered ==> s.e.listed)
  }

  lemma FourEvents(s: Sys, a: Event, b: Event, c: Event, d: Event, maxAttempts: nat)
    ensures var s1 := Step(s, a, maxAttempts);
            var s2 := Step(s1, b, maxAttempts);
            var s3 := Step(s2, c, maxAttempts);
            && (Legal(s, [a, b, c, d], maxAttempts) <==>
                  Enabled(s, a) && Enabled(s1, b) && Enabled(s2, c) && Enabled(s3, d))
            && After(s, [a, b, c, d], maxAttempts) == Step(s3, d, maxAttempts)
  {
    hide Step;
    hide Enabled;
    var s1 := Step(s, a, maxAttempts);
    var s2 := Step(s1, b, maxAttempts);
    var s3 := Step(s2, c, maxAttempts);
    assert [a, b, c, d][1..] == [b, c, d] && [b, c, d][1..] == [c, d] && [c, d][1..] == [d] && [d][1..] == [];
    assert After(s3, [d], maxAttempts) == Step(s3, d, maxAttempts);
    assert Legal(s3, [d], maxAttempts) == Enabled(s3, d);
    assert After(s2, [c, d], maxAttempts) == Step(s3, d, maxAttempts);
    assert Legal(s2, [c, d], maxAttempts) == (Enabled(s2, c) && Enabled(s3, d));
  }

  // The queued retry starts a new probe sequence and blocks.
  lemma ReprobeEffect(s: Sys, maxAttempts: nat)
    requires RetryInv(s, maxAttempts) && s.c.pending && s.c.retryTarget && s.c.semMade && s.c.regSemMade
    requires s.p.linkUp && s.p.hwValid
    ensures var t := OnRetryCallback(s, AllocOk, 0);
            && RetryInv(t, maxAttempts)
            && t.e.listed && t.e.st.ProbeWait? && t.e.ip == s.c.cfg && t.c.registered
            && t.p == s.p.(queuedRetries := CountDown(s.p.queuedRetries), otherWaiters := s.p.otherWaiters + 1)
            && t.c == s.c.(semGiven := false, received := false, last := IpOk, activity := 2, registered := true)
            && ExpiriesSinceOk(t.h) == ExpiriesSinceOk(s.h)
    // listed is kept by registration, so a registered client is on the list
    requires s.c.registered ==> s.e.listed
  {
    TryPendingRetryInv(s.(p := s.p.(queuedRetries := CountDown(s.p.queuedRetries))), AllocOk, 0, maxAttempts);
  }

  // A blocked attempt that is woken by a conflict gives the attempt up.
  lemma WakeAfterConflictEffect(s: Sys)
    requires s.c.received && !s.c.last.IpOk? && s.c.semGiven
    ensures var t := OnWake(s, true, false);
            && t.e == s.e && t.h == s.h
            && t.c == s.c.(semGiven := false, fault := true, activity := 3, pending := false)
            && t.p.linkUp == s.p.linkUp && t.p.hwValid == s.p.hwValid && t.p.queuedRetries == s.p.queuedRetries
            && t.p.otherWaiters == s.p.otherWaiters
  {
  }

  // A blocked attempt that waited in vain leaves the probe running.
  lemma WakeInVainEffect(s: Sys)
    requires !s.c.received && s.c.last.IpOk?
    ensures var t := OnWake(s, false, true);
            && t.e == s.e && t.h == s.h && t.c == s.c.(activity := 1)
            && t.p == s.p.(otherWaiters := CountDown(s.p.otherWaiters))
  {
    var t := OnWake(s, false, true);
    assert t.c == s.c.(activity := t.c.activity);
    assert t.p == s.p.(otherWaiters := t.p.otherWaiters);
  }

  // A host that uses the probed address answers.
  lemma HostAnswers(s: Sys, maxAttempts: nat)
    requires s.e.listed && InProbePhase(s.e)
    ensures HearArp(s, s.e.ip, 0, true, maxAttempts) == Restart(s, maxAttempts)
  {
  }

  // The part of a round before the host answers.
  lemma RoundStartEffect(s: Sys, ip: Ip4, maxAttempts: nat)
    requires BetweenRounds(s, ip, maxAttempts) && s.c.timerArmed
    ensures var s1 := OnRetryTimer(s, true, AllocOk, 0);
            var s2 := OnRetryCallback(s1, AllocOk, 0);
            var t := OnWake(s2, false, true);
            && s1.p.queuedRetries == 1 && s2.p.otherWaiters == 1
            && RetryInv(t, maxAttempts)
            && t.e.listed && InProbePhase(t.e) && t.e.ip == ip
            && t.c == s.c.(pending := true, timerArmed := false, semGiven := false, received := false, last := IpOk,
                           activity := 1, registered := true)
            && t.p == s.p.(queuedRetries := 0, otherWaiters := 0)
            && ExpiriesSinceOk(t.h) == ExpiriesSinceOk(s.h) + 1
  {
    hide OnRetryCallback, OnWake, TryPendingThenReturn;
    var s1 := OnRetryTimer(s, true, AllocOk, 0);
    OnRetryTimerRetryInv(s, true, AllocOk, 0, maxAttempts);
    assert s1.c == s.c.(timerArmed := false, pending := true) && s1.e == s.e && s1.p == s.p.(queuedRetries := 1);
    ReprobeEffect(s1, maxAttempts);
    var s2 := OnRetryCallback(s1, AllocOk, 0);
    WakeInVainEffect(s2);
    OnWakeRetryInv(s2, false, true, maxAttempts);
  }

  lemma ConflictRoundEffect(s: Sys, ip: Ip4, maxAttempts: nat)
    requires BetweenRounds(s, ip, maxAttempts) && s.c.timerArmed
    ensures var t := After(s, ConflictRound(ip), maxAttempts);
            && Legal(s, ConflictRound(ip), maxAttempts)
            && BetweenRounds(t, ip, maxAttempts)
            && ExpiriesSinceOk(t.h) == ExpiriesSinceOk(s.h) + 1
            && t.c.retryCount == (if s.c.retryCount + 2 <= maxAttempts then s.c.retryCount + 2 else maxAttempts)
            && t.c.timerArmed == (s.c.retryCount < maxAttempts)
  {
    hide OnRetryTimer, OnRetryCallback, OnWake, Restart, HearArp;
    FourEvents(s, RetryTimer(true, AllocOk, 0), RetryCallback(AllocOk, 0), Wake(false, true), ArpHeard(ip, 0, true),
               maxAttempts);
    RoundStartEffect(s, ip, maxAttempts);
    var s3 := OnWake(OnRetryCallback(OnRetryTimer(s, true, AllocOk, 0), AllocOk, 0), false, true);
    var s4 := Note(s3, Heard(ip, 0, true));
    HostAnswers(s4, maxAttempts);
    RestartEffect(s4, maxAttempts);
    RestartRetryInv(s4, maxAttempts);
  }

  // Booting into the conflict: the address was never installed, and the retry timer is armed.
  lemma BootConflictEffect(ip: Ip4, maxAttempts: nat)
    requires ip != 0 && maxAttempts > 0
    ensures var t := After(BOOT, BootConflict(ip), maxAttempts);
            && Legal(BOOT, BootConflict(ip), maxAttempts)
            && BetweenRounds(t, ip, maxAttempts)
            && ExpiriesSinceOk(t.h) == 0
            && t.c.retryCount == (if 2 <= maxAttempts then 2 else maxAttempts)
            && t.c.timerArmed
  {
    hide OnWake, Restart;
    var s1 := OnConfigure(BOOT, ip, AllocOk, 0);
    var s2 := OnLinkFlag(s1, true);
    var s3 := OnLinkEvent(s2, AllocOk, 0);
    TryPendingRetryInv(s2.(p := s2.p.(hwValid := true)), AllocOk, 0, maxAttempts);
    var s3' := Note(s3, Heard(ip, 0, true));
    var s4 := HearArp(s3', ip, 0, true, maxAttempts);
    HostAnswers(s3', maxAttempts);
    hide HearArp;
    RestartEffect(s3', maxAttempts);
    RestartRetryInv(s3', maxAttempts);
    RestartSignals(s3', maxAttempts);
    WakeAfterConflictEffect(s4);
    OnWakeRetryInv(s4, true, false, maxAttempts);
    FourEvents(s1, LinkFlag(true), LinkEvent(AllocOk, 0), ArpHeard(ip, 0, true), Wake(true, false), maxAttempts);
    assert BootConflict(ip)[1..] == [LinkFlag(true), LinkEvent(AllocOk, 0), ArpHeard(ip, 0, true), Wake(true, false)];
  }

  ghost function RoundsAllowed(maxAttempts: nat): nat {
    (maxAttempts + 1) / 2
  }

  lemma {:induction false} PersistentConflictEffect(ip: Ip4, rounds: nat, maxAttempts: nat)
    requires ip != 0 && maxAttempts > 0 && rounds <= RoundsAllowed(maxAttempts)
    ensures var evs := PersistentConflict(ip, rounds);
            var t := After(BOOT, evs, maxAttempts);
            && Legal(BOOT, evs, maxAttempts)
            && BetweenRounds(t, ip, maxAttempts)
            && ExpiriesSinceOk(t.h) == rounds
            && t.c.retryCount == (if 2 * rounds + 2 <= maxAttempts then 2 * rounds + 2 else maxAttempts)
            && t.c.timerArmed == (rounds < RoundsAllowed(maxAttempts))
  {
    if rounds == 0 {
      BootConflictEffect(ip, maxAttempts);
    } else {
      PersistentConflictEffect(ip, rounds - 1, maxAttempts);
      var s := After(BOOT, PersistentConflict(ip, rounds - 1), maxAttempts);
      ConflictRoundEffect(s, ip, maxAttempts);
      RunsCompose(BOOT, PersistentConflict(ip, rounds - 1), ConflictRound(ip), maxAttempts);
    }
  }

  // A persistent conflict can use up all retries: there is a run in which the timer expires ceil(M / 2) times, and
  // afterwards it is idle with the count at its limit.
  lemma PersistentConflictStops(ip: Ip4, maxAttempts: nat)
    requires ip != 0 && maxAttempts > 0
    ensures var t := After(BOOT, PersistentConflict(ip, RoundsAllowed(maxAttempts)), maxAttempts);
            && Reachable(t, maxAttempts)
            && ExpiriesSinceOk(t.h) == RoundsAllowed(maxAttempts)
            && !t.c.timerArmed && t.c.retryCount == maxAttempts
  {
    PersistentConflictEffect(ip, RoundsAllowed(maxAttempts), maxAttempts);
  }

  // ---- Every run of conflicts ----------------------------------------------

  ghost function Expiries(s: Sys): nat {
    ExpiriesSinceOk(s.h) + if s.c.timerArmed then 1 else 0
  }

  // The account is exact, and nothing probes while a retry is due.
  ghost predicate Exact(s: Sys, maxAttempts: nat) {
    && RetryInv(s, maxAttempts)
    && Expiries(s) == (s.c.retryCount + 1) / 2
    && s.p.queuedRetries <= 1
    && (s.c.timerArmed ==> s.p.queuedRetries == 0)
    && (s.c.timerArmed || s.p.queuedRetries > 0 ==> s.e.st.Off?)
  }

  // Only the retry timer starts probes: no link comes up, and a deferred timeout finds nothing pending.
  predicate TimerDriven(s: Sys, ev: Event) {
    !ev.Configure? && !ev.LinkEvent? && (ev.DeferredTimeout? ==> !s.c.pending)
  }

  ghost predicate AllTimerDriven(s: Sys, evs: seq<Event>, maxAttempts: nat)
    decreases |evs|
  {
    evs == [] ||
    (TimerDriven(s, evs[0]) && AllTimerDriven(Step(s, evs[0], maxAttempts), evs[1..], maxAttempts))
  }

  // Trying the pending address leaves the account alone.
  lemma TryPendingKeepsAccount(s: Sys, alloc: Alloc, rand: nat)
    ensures var t := TryPendingThenReturn(s, alloc, rand);
            && ExpiriesSinceOk(t.h) == ExpiriesSinceOk(s.h) && t.p.queuedRetries == s.p.queuedRetries
            && t.c.retryCount == s.c.retryCount && t.c.timerArmed == s.c.timerArmed
            && (!s.c.pending ==> t == s)
  {
    hide AfterPerform, Perform;
    var s1 := s.(c := s.c.(activity := 2));
    PerformKeepsAccount(s1, alloc, rand);
    AfterPerformKeepsAccount(Perform(s1, alloc, rand).0);
  }

  lemma PerformKeepsAccount(s: Sys, alloc: Alloc, rand: nat)
    ensures var t := Perform(s, alloc, rand).0;
            && ExpiriesSinceOk(t.h) == ExpiriesSinceOk(s.h) && t.p.queuedRetries == s.p.queuedRetries
            && t.c.retryCount == s.c.retryCount && t.c.timerArmed == s.c.timerArmed
  {
  }

  lemma AfterPerformKeepsAccount(s: Sys)
    ensures var t := AfterPerform(s);
            && ExpiriesSinceOk(t.h) == ExpiriesSinceOk(s.h) && t.p.queuedRetries == s.p.queuedRetries
            && t.c.retryCount == s.c.retryCount && t.c.timerArmed == s.c.timerArmed && t.e == s.e
  {
  }

  // A conflict arms the timer, and pays for it, as long as the limit is not reached.
  lemma RestartIsExact(s: Sys, maxAttempts: nat)
    requires Exact(s, maxAttempts) && !s.e.st.Off?
    ensures Exact(Restart(s, maxAttempts), maxAttempts)
  {
    hide Restart;
    RestartEffect(s, maxAttempts);
    RestartRetryInv(s, maxAttempts);
  }

  lemma HearArpIsExact(s: Sys, sender: Ip4, target: Ip4, foreign: bool, maxAttempts: nat)
    requires Exact(s, maxAttempts)
    ensures Exact(HearArp(s, sender, target, foreign, maxAttempts), maxAttempts)
  {
    hide Restart;
    HearArpRetryInv(s, sender, target, foreign, maxAttempts);
    if !s.e.st.Off? {
      RestartIsExact(s, maxAttempts);
    }
  }

  lemma TickIsExact(s: Sys, maxAttempts: nat)
    requires Exact(s, maxAttempts) && OksTold(Tick(s, maxAttempts).h) == OksTold(s.h)
    ensures Exact(Tick(s, maxAttempts), maxAttempts)
  {
    hide Callback;
    TickRetryInv(s, maxAttempts);
    var s1 := s.(e := s.e.(lastConflict := CountDown(s.e.lastConflict), ttw := CountDown(s.e.ttw)));
    if s.e.listed && s1.e.ttw == 0 {
      if s1.e.st.RateLimit? {
        ConflictCallbackEffect(StopEngine(s1), RestartClient, maxAttempts);
      } else if (s1.e.st.AnnounceWait? || s1.e.st.Announcing?) && s1.e.sent + 1 >= ANNOUNCE_NUM {
        OkCallbackIsTold(s1, TickBody(s1, maxAttempts), maxAttempts);
      }
    }
  }

  lemma OnRetryTimerIsExact(s: Sys, queued: bool, alloc: Alloc, rand: nat, maxAttempts: nat)
    requires Exact(s, maxAttempts) && s.c.timerArmed
    ensures Exact(OnRetryTimer(s, queued, alloc, rand), maxAttempts)
  {
    hide TryPendingThenReturn;
    OnRetryTimerRetryInv(s, queued, alloc, rand, maxAttempts);
    var s1 := Note(s.(c := s.c.(timerArmed := false)), RetryExpired);
    TryPendingKeepsAccount(s1.(c := s1.c.(pending := true)), alloc, rand);
  }

  lemma OnWakeIsExact(s: Sys, fromLink: bool, timedOut: bool, maxAttempts: nat)
    requires Exact(s, maxAttempts)
    ensures Exact(OnWake(s, fromLink, timedOut), maxAttempts)
  {
    hide AfterPerform;
    OnWakeRetryInv(s, fromLink, timedOut, maxAttempts);
    AfterPerformKeepsAccount(EndWait(s, timedOut));
  }

  lemma StepIsExact(s: Sys, ev: Event, maxAttempts: nat)
    requires Exact(s, maxAttempts) && Enabled(s, ev) && TimerDriven(s, ev)
    requires OksTold(Step(s, ev, maxAttempts).h) == OksTold(s.h)
    ensures Exact(Step(s, ev, maxAttempts), maxAttempts)
  {
    hide TryPendingThenReturn, OnRetryTimer, OnWake, Tick, HearArp;
    StepRetryInv(s, ev, maxAttempts);
    match ev
    case LinkLostEvent =>
    case LinkFlag(up) =>
    case DeferredTimeout(alloc, rand) =>
      TryPendingKeepsAccount(s.(p := s.p.(deferred := CountDown(s.p.deferred))), alloc, rand);
    case RetryTimer(queued, alloc, rand) => OnRetryTimerIsExact(s, queued, alloc, rand, maxAttempts);
    case RetryCallback(alloc, rand) =>
      TryPendingKeepsAccount(s.(p := s.p.(queuedRetries := CountDown(s.p.queuedRetries))), alloc, rand);
    case StopCallback =>
    case Wake(fromLink, timedOut) => OnWakeIsExact(s, fromLink, timedOut, maxAttempts);
    case EngineTick => TickIsExact(Note(s, Ticked), maxAttempts);
    case ArpHeard(sender, target, foreign) =>
      HearArpIsExact(Note(s, Heard(sender, target, foreign)), sender, target, foreign, maxAttempts);
  }

  lemma {:induction false} RunIsExact(s: Sys, evs: seq<Event>, maxAttempts: nat)
    requires Exact(s, maxAttempts) && Legal(s, evs, maxAttempts)
    requires AllTimerDriven(s, evs, maxAttempts) && NeverConfirmed(s, evs, maxAttempts)
    ensures Exact(After(s, evs, maxAttempts), maxAttempts)
    decreases |evs|
  {
    hide Step, Exact, TimerDriven, Enabled;
    if evs != [] {
      StepIsExact(s, evs[0], maxAttempts);
      RunIsExact(Step(s, evs[0], maxAttempts), evs[1..], maxAttempts);
    }
  }

  // Boot with a link: the first probe runs, whether its allocations succeed or not.
  ghost function FirstProbe(ip: Ip4, alloc: Alloc, rand: nat): seq<Event> {
    [Configure(ip, alloc, rand), LinkFlag(true), LinkEvent(alloc, rand)]
  }

  lemma FirstProbeIsExact(ip: Ip4, alloc: Alloc, rand: nat, maxAttempts: nat)
    requires ip != 0 && maxAttempts > 0
    ensures Legal(BOOT, FirstProbe(ip, alloc, rand), maxAttempts)
    ensures Exact(After(BOOT, FirstProbe(ip, alloc, rand), maxAttempts), maxAttempts)
  {
    hide TryPending, TryPendingThenReturn;
    ThreeEvents(BOOT, Configure(ip, alloc, rand), LinkFlag(true), LinkEvent(alloc, rand), maxAttempts);
    var s1 := OnConfigure(BOOT, ip, alloc, rand);
    TryPendingKeepsAccount(BOOT.(c := BOOT.c.(configured := true, cfg := ip, pending := true, activity := 1)), alloc, rand);
    var s2 := OnLinkFlag(s1, true);
    LinkEventKeepsAccount(s2, alloc, rand);
    RunRetryInv(BOOT, FirstProbe(ip, alloc, rand), maxAttempts);
  }

  lemma LinkEventKeepsAccount(s: Sys, alloc: Alloc, rand: nat)
    ensures var t := OnLinkEvent(s, alloc, rand);
            && ExpiriesSinceOk(t.h) == ExpiriesSinceOk(s.h) && t.p.queuedRetries == s.p.queuedRetries
            && t.c.retryCount == s.c.retryCount && t.c.timerArmed == s.c.timerArmed
  {
    hide TryPending;
    var s1 := s.(p := s.p.(hwValid := true));
    TryPendingKeepsAccount(s1, alloc, rand);
    var (t, blocked) := TryPending(s1, alloc, rand);
    assert t.h == TryPendingThenReturn(s1, alloc, rand).h && t.c == TryPendingThenReturn(s1, alloc, rand).c;
  }

  lemma ThreeEvents(s: Sys, a: Event, b: Event, c: Event, maxAttempts: nat)
    ensures var s1 := Step(s, a, maxAttempts);
            var s2 := Step(s1, b, maxAttempts);
            && (Legal(s, [a, b, c], maxAttempts) <==> Enabled(s, a) && Enabled(s1, b) && Enabled(s2, c))
            && After(s, [a, b, c], maxAttempts) == Step(s2, c, maxAttempts)
  {
    hide Step, Enabled;
    var s1 := Step(s, a, maxAttempts);
    var s2 := Step(s1, b, maxAttempts);
    assert [a, b, c][1..] == [b, c] && [b, c][1..] == [c] && [c][1..] == [];
    assert After(s2, [c], maxAttempts) == Step(s2, c, maxAttempts);
    assert Legal(s2, [c], maxAttempts) == Enabled(s2, c);
    assert Legal(s1, [b, c], maxAttempts) == (Enabled(s1, b) && Enabled(s2, c));
  }

  // After boot, as long as only the timer starts probes and none succeeds, every run keeps the account exact: expiries
  // of the retry timer, past or armed, are half the retry count, rounded up. So whoever answers, however often and
  // whenever: a device that has given up has made exactly ceil(M / 2) timer-driven retries.
  lemma RetriesAreHalfTheCount(ip: Ip4, alloc: Alloc, rand: nat, evs: seq<Event>, maxAttempts: nat)
    requires ip != 0 && maxAttempts > 0
    requires var s := After(BOOT, FirstProbe(ip, alloc, rand), maxAttempts);
             Legal(s, evs, maxAttempts) && AllTimerDriven(s, evs, maxAttempts) && NeverConfirmed(s, evs, maxAttempts)
    ensures var t := After(After(BOOT, FirstProbe(ip, alloc, rand), maxAttempts), evs, maxAttempts);
            && ExpiriesSinceOk(t.h) + (if t.c.timerArmed then 1 else 0) == (t.c.retryCount + 1) / 2
            && (t.c.retryCount == maxAttempts && !t.c.timerArmed ==> ExpiriesSinceOk(t.h) == RoundsAllowed(maxAttempts))
  {
    FirstProbeIsExact(ip, alloc, rand, maxAttempts);
    RunIsExact(After(BOOT, FirstProbe(ip, alloc, rand), maxAttempts), evs, maxAttempts);
  }

  // The documented number of retries (docs/ACD_CONFLICT_REPORTING.md: up to the configured maximum) can be
  // reached exactly when that maximum is 1.
  lemma ConfiguredRetriesReachedOnlyForOne(maxAttempts: nat)
    requires maxAttempts > 0
    ensures (exists t :: Reachable(t, maxAttempts) && ExpiriesSinceOk(t.h) == maxAttempts) <==> maxAttempts == 1
  {
    forall t | Reachable(t, maxAttempts) && ExpiriesSinceOk(t.h) == maxAttempts
      ensures maxAttempts == 1
    {
      RetriesAreBounded(t, maxAttempts);
    }
    PersistentConflictStops(1, maxAttempts);
  }

  // ---- Giving up is final -------------------------------------------------

  ghost function OksTold(h: History): nat {
    match h
    case Nothing => 0
    case Then(past, o) => OksTold(past) + if o.Told? && o.v.IpOk? then 1 else 0
  }

  ghost predicate GivenUp(s: Sys, maxAttempts: nat) {
    RetryInv(s, maxAttempts) && s.c.retryCount == maxAttempts && !s.c.timerArmed
  }

  // What a step may do once the device has given up, as long as no new IpOk is told.
  ghost predicate StaysGivenUp(s: Sys, t: Sys) {
    OksTold(t.h) == OksTold(s.h) ==>
      t.c.retryCount == s.c.retryCount && !t.c.timerArmed && ExpiriesSinceOk(t.h) == ExpiriesSinceOk(s.h)
  }

  lemma TryPendingKeepsGivenUp(s: Sys, alloc: Alloc, rand: nat)
    requires !s.c.timerArmed
    ensures StaysGivenUp(s, TryPending(s, alloc, rand).0)
    ensures StaysGivenUp(s, TryPendingThenReturn(s, alloc, rand))
  {
    hide Perform, AfterPerform;
    var s0 := s.(c := s.c.(activity := 2));
    PerformKeepsGivenUp(s0, alloc, rand);
    AfterPerformKeepsGivenUp(Perform(s0, alloc, rand).0);
  }

  lemma PerformKeepsGivenUp(s: Sys, alloc: Alloc, rand: nat)
    requires !s.c.timerArmed
    ensures var t := Perform(s, alloc, rand).0;
            OksTold(t.h) == OksTold(s.h) && t.c.retryCount == s.c.retryCount && !t.c.timerArmed
            && ExpiriesSinceOk(t.h) == ExpiriesSinceOk(s.h)
  {
  }

  lemma AfterPerformKeepsGivenUp(s: Sys)
    requires !s.c.timerArmed
    ensures StaysGivenUp(s, AfterPerform(s))
  {
  }

  lemma RestartKeepsGivenUp(s: Sys, maxAttempts: nat)
    requires maxAttempts > 0 && s.c.retryCount >= maxAttempts && !s.c.timerArmed
    ensures StaysGivenUp(s, Restart(s, maxAttempts))
  {
    hide Callback;
    var s1 := s.(e := s.e.(numConflicts := (s.e.numConflicts + 1) % 256));
    ConflictCallbackEffect(s1, Decline, maxAttempts);
    ConflictCallbackEffect(StopEngine(Callback(s1, Decline, maxAttempts)), RestartClient, maxAttempts);
  }

  lemma HearArpKeepsGivenUp(s: Sys, sender: Ip4, target: Ip4, foreign: bool, maxAttempts: nat)
    requires maxAttempts > 0 && s.c.retryCount >= maxAttempts && !s.c.timerArmed
    ensures StaysGivenUp(s, HearArp(s, sender, target, foreign, maxAttempts))
  {
    hide Restart;
    RestartKeepsGivenUp(s, maxAttempts);
  }

  // The last announcement is followed by an IpOk verdict.
  lemma OkCallbackIsTold(s: Sys, t: Sys, maxAttempts: nat)
    requires s.e.ttw == 0 && (s.e.st.AnnounceWait? || s.e.st.Announcing?) && s.e.sent + 1 >= ANNOUNCE_NUM
    requires t == TickBody(s, maxAttempts)
    ensures OksTold(t.h) == OksTold(s.h) + 1
  {
    var s1 := Note(s, AnnounceSent(s.e.ip));
    assert OksTold(s1.h) == OksTold(s.h);
    assert OksTold(Then(s1.h, Told(IpOk))) == OksTold(s.h) + 1;
  }

  lemma TickKeepsGivenUp(s: Sys, maxAttempts: nat)
    requires maxAttempts > 0 && s.c.retryCount >= maxAttempts && !s.c.timerArmed
    ensures StaysGivenUp(s, Tick(s, maxAttempts))
  {
    var s1 := s.(e := s.e.(lastConflict := CountDown(s.e.lastConflict), ttw := CountDown(s.e.ttw)));
    var t := TickBody(s1, maxAttempts);
    if s1.e.ttw == 0 && s1.e.st.RateLimit? {
      ConflictCallbackEffect(StopEngine(s1), RestartClient, maxAttempts);
    } else if s1.e.ttw == 0 && (s1.e.st.AnnounceWait? || s1.e.st.Announcing?) && s1.e.sent + 1 >= ANNOUNCE_NUM {
      OkCallbackIsTold(s1, t, maxAttempts);
    } else {
      assert t.c == s.c;
    }
  }

  lemma StartsKeepGivenUp(s: Sys, ev: Event, maxAttempts: nat)
    requires !s.c.timerArmed
    requires ev.Configure? || ev.LinkEvent? || ev.DeferredTimeout? || ev.RetryCallback?
    ensures StaysGivenUp(s, Step(s, ev, maxAttempts))
  {
    hide TryPending, TryPendingThenReturn;
    match ev
    case Configure(ip, alloc, rand) =>
      TryPendingKeepsGivenUp(s.(c := s.c.(configured := true, cfg := ip, pending := true, activity := 1)), alloc, rand);
    case LinkEvent(alloc, rand) =>
      TryPendingKeepsGivenUp(s.(p := s.p.(hwValid := true)), alloc, rand);
    case DeferredTimeout(alloc, rand) =>
      TryPendingKeepsGivenUp(s.(p := s.p.(deferred := CountDown(s.p.deferred))), alloc, rand);
    case RetryCallback(alloc, rand) =>
      TryPendingKeepsGivenUp(s.(p := s.p.(queuedRetries := CountDown(s.p.queuedRetries))), alloc, rand);
  }

  lemma OnWakeKeepsGivenUp(s: Sys, fromLink: bool, timedOut: bool)
    requires !s.c.timerArmed
    ensures StaysGivenUp(s, OnWake(s, fromLink, timedOut))
  {
    hide AfterPerform;
    var s1 := EndWait(s, timedOut);
    assert s1.h == s.h && s1.c.timerArmed == s.c.timerArmed && s1.c.retryCount == s.c.retryCount;
    AfterPerformKeepsGivenUp(s1);
  }

  lemma StepKeepsGivenUp(s: Sys, ev: Event, maxAttempts: nat)
    requires maxAttempts > 0 && s.c.retryCount >= maxAttempts && !s.c.timerArmed && Enabled(s, ev)
    ensures StaysGivenUp(s, Step(s, ev, maxAttempts))
  {
    hide OnConfigure, OnLinkEvent, OnDeferred, OnRetryTimer, OnRetryCallback, OnWake, Tick, HearArp;
    match ev
    case EngineTick => TickKeepsGivenUp(Note(s, Ticked), maxAttempts);
    case ArpHeard(sender, target, foreign) =>
      HearArpKeepsGivenUp(Note(s, Heard(sender, target, foreign)), sender, target, foreign, maxAttempts);
    case Wake(fromLink, timedOut) => OnWakeKeepsGivenUp(s, fromLink, timedOut);
    case RetryTimer(_, _, _) =>
    case LinkLostEvent =>
    case LinkFlag(up) =>
    case StopCallback =>
    case _ => StartsKeepGivenUp(s, ev, maxAttempts);
  }

  // No step of the run tells the coordinator IpOk.
  ghost predicate NeverConfirmed(s: Sys, evs: seq<Event>, maxAttempts: nat)
    decreases |evs|
  {
    evs == [] ||
    (OksTold(Step(s, evs[0], maxAttempts).h) == OksTold(s.h)
     && NeverConfirmed(Step(s, evs[0], maxAttempts), evs[1..], maxAttempts))
  }

  // Once the device has given up, no run without a new IpOk verdict arms the retry timer again, whatever the
  // link, the timeouts and the network do.
  lemma {:induction false} GivingUpIsFinal(s: Sys, evs: seq<Event>, maxAttempts: nat)
    requires GivenUp(s, maxAttempts) && Legal(s, evs, maxAttempts) && NeverConfirmed(s, evs, maxAttempts)
    ensures GivenUp(After(s, evs, maxAttempts), maxAttempts)
    ensures ExpiriesSinceOk(After(s, evs, maxAttempts).h) == ExpiriesSinceOk(s.h)
    decreases |evs|
  {
    hide Step;
    if evs != [] {
      StepKeepsGivenUp(s, evs[0], maxAttempts);
      StepRetryInv(s, evs[0], maxAttempts);
      GivingUpIsFinal(Step(s, evs[0], maxAttempts), evs[1..], maxAttempts);
    }
  }
}
