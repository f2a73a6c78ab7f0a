/**
  What the ACD protocol guarantees about installed addresses, over every
  interleaving of link events, timeouts, retries, engine ticks and ARP traffic.
*/
module AcdSafety {
  import opened AcdModel

  // ---- Reading a history, independently of the state machine --------------

  // The address of the probe sequence that was started last.
  ghost function LastStart(h: History): (r: Ip4) {
    match h
    case Nothing => 0
    case Then(past, o) => if o.Started? then o.ip else LastStart(past)
  }

  ghost function ProbesSince(h: History): nat {
    match h
    case Nothing => 0
    case Then(past, o) =>
      if o.Started? then 0 else ProbesSince(past) + if o.ProbeSent? then 1 else 0
  }

  ghost function AnnouncesSince(h: History): nat {
    match h
    case Nothing => 0
    case Then(past, o) =>
      if o.Started? then 0 else AnnouncesSince(past) + if o.AnnounceSent? then 1 else 0
  }

  // Another host uses the address.
  predicate ClaimedBy(o: Obs, ip: Ip4) {
    o.Heard? && o.foreign && o.sender == ip
  }

  // Another host probes for it.
  predicate ProbedBy(o: Obs, ip: Ip4) {
    o.Heard? && o.foreign && o.sender == 0 && o.target == ip
  }

  // Packets that conflict with the address before its first announcement (section 2.1.1 of RFC 5227),
  ghost function ConflictsSince(h: History): nat {
    match h
    case Nothing => 0
    case Then(past, o) =>
      if o.Started? then 0
      else
        var conflict := AnnouncesSince(past) == 0 && (ClaimedBy(o, LastStart(past)) || ProbedBy(o, LastStart(past)));
        ConflictsSince(past) + if conflict then 1 else 0
  }

  // and packets that do so from then on (section 2.4).
  ghost function ClaimsSince(h: History): nat {
    match h
    case Nothing => 0
    case Then(past, o) =>
      if o.Started? then 0
      else ClaimsSince(past) + if AnnouncesSince(past) > 0 && ClaimedBy(o, LastStart(past)) then 1 else 0
  }

  // The whole probe and announce sequence for ip ran since the last start: of all packets that were heard, none
  // conflicted while probing, and at most one while announcing.
  ghost predicate Vetted(h: History, ip: Ip4) {
    && LastStart(h) == ip
    && ProbesSince(h) == PROBE_NUM
    && AnnouncesSince(h) == ANNOUNCE_NUM
    && ConflictsSince(h) == 0
    && ClaimsSince(h) <= 1
  }

  // The address was defended since the last start,
  ghost predicate DefendedSince(h: History) {
    match h
    case Nothing => false
    case Then(past, o) => !o.Started? && (o.Defended? || DefendedSince(past))
  }

  // and so many ticks ago for the last time.
  ghost function TicksSinceDefence(h: History): nat {
    match h
    case Nothing => 0
    case Then(past, o) => if o.Defended? then 0 else TicksSinceDefence(past) + if o.Ticked? then 1 else 0
  }

  // The latest thing the coordinator was told or forgot is an IpOk, given when ip had been vetted,
  // and no probe sequence was started since.
  ghost predicate ConfirmedFor(h: History, ip: Ip4) {
    match h
    case Nothing => false
    case Then(past, o) =>
      if o.Told? then o.v.IpOk? && Vetted(past, ip)
      else !o.Cleared? && !o.Started? && ConfirmedFor(past, ip)
  }

  // Every installation in the history was of a vetted, confirmed address.
  ghost predicate InstallsJustified(h: History) {
    match h
    case Nothing => true
    case Then(past, o) => InstallsJustified(past) && (o.Installed? ==> ConfirmedFor(past, o.ip))
  }

  // The address the interface ends up with, read off the history.
  ghost function AddressAfter(h: History): Ip4 {
    match h
    case Nothing => 0
    case Then(past, o) => if o.Installed? then o.ip else if o.Removed? then 0 else AddressAfter(past)
  }

  // ---- The same reading as one summary, updated observation by observation ----

  datatype Summary = Summary(
    start: Ip4, probes: nat, announces: nat, conflicts: nat, claims: nat, defended: bool, quiet: nat,
    confirmed: bool, confirmedIp: Ip4, justified: bool, addr: Ip4)

  ghost predicate SummaryVetted(m: Summary) {
    m.probes == PROBE_NUM && m.announces == ANNOUNCE_NUM && m.conflicts == 0 && m.claims <= 1
  }

  ghost function Observe(m: Summary, o: Obs): Summary {
    var anew := o.Started?;
    var before := m.announces == 0;
    Summary(
      start := if anew then o.ip else m.start,
      probes := if anew then 0 else m.probes + if o.ProbeSent? then 1 else 0,
      announces := if anew then 0 else m.announces + if o.AnnounceSent? then 1 else 0,
      conflicts := if anew then 0
                   else m.conflicts + if before && (ClaimedBy(o, m.start) || ProbedBy(o, m.start)) then 1 else 0,
      claims := if anew then 0 else m.claims + if !before && ClaimedBy(o, m.start) then 1 else 0,
      defended := !anew && (o.Defended? || m.defended),
      quiet := if o.Defended? then 0 else m.quiet + if o.Ticked? then 1 else 0,
      confirmed := if o.Told? then o.v.IpOk? && SummaryVetted(m) else !o.Cleared? && !anew && m.confirmed,
      confirmedIp := if o.Told? then m.start else m.confirmedIp,
      justified := m.justified && (o.Installed? ==> m.confirmed && m.confirmedIp == o.ip),
      addr := if o.Installed? then o.ip else if o.Removed? then 0 else m.addr)
  }

  ghost function Summarize(h: History): Summary {
    match h
    case Nothing => Summary(0, 0, 0, 0, 0, false, 0, false, 0, true, 0)
    case Then(past, o) => Observe(Summarize(past), o)
  }

  // The summary says what the separate readings say.
  lemma {:induction false} SummarySent(h: History)
    ensures var m := Summarize(h);
            m.start == LastStart(h) && m.probes == ProbesSince(h) && m.announces == AnnouncesSince(h) && m.addr == AddressAfter(h)
  {
    match h
    case Nothing =>
    case Then(past, o) => SummarySent(past);
  }

  lemma {:induction false} SummaryHeard(h: History)
    ensures Summarize(h).conflicts == ConflictsSince(h) && Summarize(h).claims == ClaimsSince(h)
  {
    hide LastStart, AnnouncesSince;
    match h
    case Nothing =>
    case Then(past, o) =>
      SummarySent(past);
      SummaryHeard(past);
  }

  lemma {:induction false} SummaryDefended(h: History)
    ensures Summarize(h).defended == DefendedSince(h) && Summarize(h).quiet == TicksSinceDefence(h)
  {
    match h
    case Nothing =>
    case Then(past, o) => SummaryDefended(past);
  }

  lemma {:induction false} SummaryIsFaithful(h: History, ip: Ip4)
    ensures var m := Summarize(h);
            && (m.confirmed && m.confirmedIp == ip <==> ConfirmedFor(h, ip))
            && (m.justified <==> InstallsJustified(h))
  {
    hide LastStart, ProbesSince, AnnouncesSince, ConflictsSince, ClaimsSince;
    match h
    case Nothing =>
    case Then(past, o) =>
      SummarySent(past);
      SummaryHeard(past);
      SummaryIsFaithful(past, ip);
      if o.Installed? {
        SummaryIsFaithful(past, o.ip);
      }
  }

  // ---- Invariants ---------------------------------------------------------

  // The engine's counters agree with the history of the current probe sequence.
  ghost predicate EngineAgrees(e: Engine, m: Summary) {
    && e.lastConflict <= DEFEND_INTERVAL_TICKS
    && (e.st.ProbeWait? || e.st.Probing? || e.st.AnnounceWait? || e.st.Announcing? ==>
          e.listed && m.start == e.ip && m.conflicts == 0)
    && (e.st.ProbeWait? || e.st.Probing? || e.st.AnnounceWait? ==> m.announces == m.claims == e.lastConflict == 0 && !m.defended)
    && (e.st.ProbeWait? ==> e.sent == 0 && m.probes == 0)
    && (e.st.Probing? ==> 1 <= e.sent < PROBE_NUM && m.probes == e.sent)
    && (e.st.AnnounceWait? ==> e.sent == 0 && m.probes == PROBE_NUM)
    && (e.st.Announcing? ==>
          && 1 <= e.sent < ANNOUNCE_NUM
          && m.probes == PROBE_NUM && m.announces == e.sent
          && 1 <= e.ttw <= ANNOUNCE_INTERVAL_TICKS
          && m.claims <= 1
          && (m.claims == 0 ==> e.lastConflict == 0)
          && (m.claims == 1 ==>
                e.lastConflict > e.ttw + (ANNOUNCE_NUM - 1 - e.sent) * ANNOUNCE_INTERVAL_TICKS))
    && (e.st.Ongoing? ==> 1 <= e.ttw <= PERIODIC_DEFEND_TICKS)
    // what is left of the interval of a defence
    && (e.st.Announcing? || e.st.Ongoing? ==>
          && e.listed && m.start == e.ip && m.announces > 0
          && e.lastConflict == if m.defended && m.quiet < DEFEND_INTERVAL_TICKS then DEFEND_INTERVAL_TICKS - m.quiet else 0)
  }

  ghost predicate CoordinatorAgrees(e: Engine, c: Coordinator, m: Summary) {
    && (!c.configured ==> !c.pending && c.addr == 0 && !c.semMade && !c.retryTarget)
    && (c.configured ==> c.cfg != 0)
    && (!c.semMade ==> !c.received && !e.listed && !c.registered && e.st.Off?)
    && (c.registered ==> e.listed)
    && (!e.st.Off? ==> e.ip == c.cfg)
    && (c.received && c.last.IpOk? ==> m.confirmed && m.confirmedIp == c.cfg && c.retryCount == 0)
    && (c.retryCount > 0 ==> c.addr == 0 && c.fault)
    && c.addr == m.addr
    && (c.addr == 0 || c.addr == c.cfg)
    && m.justified
  }

  ghost predicate Inv(s: Sys) {
    && EngineAgrees(s.e, Summarize(s.h))
    && CoordinatorAgrees(s.e, s.c, Summarize(s.h))
    && (s.p.linkWaiters + s.p.otherWaiters > 0 ==> s.c.configured)
  }

  // ---- Preservation, one piece of code at a time ---------------------------

  lemma BootInv()
    ensures Inv(BOOT)
  {
  }

  // Telling the coordinator IpOk is sound when the address was vetted at that moment.
  lemma OkCallbackInv(s: Sys, maxAttempts: nat)
    requires Inv(s) && s.c.semMade && s.c.configured && SummaryVetted(Summarize(s.h)) && Summarize(s.h).start == s.c.cfg && s.e.st.Ongoing?
    ensures Inv(Callback(s, IpOk, maxAttempts))
  {
  }

  // Inv except for what it says of a running probe sequence; it holds while a conflict is being reported.
  ghost predicate Settling(s: Sys) {
    && s.e.lastConflict <= DEFEND_INTERVAL_TICKS
    && CoordinatorAgrees(s.e, s.c, Summarize(s.h))
    && s.c.semMade && s.c.configured
  }

  lemma StartRetryInv(s: Sys)
    requires Settling(s) && s.c.fault && !s.c.last.IpOk?
    ensures Settling(StartRetry(s))
    ensures StartRetry(s).c.cfg == s.c.cfg && (StartRetry(s).e == s.e || StartRetry(s).e == s.e.(st := Off))
  {
  }

  lemma ConflictCallbackInv(s: Sys, v: Verdict, maxAttempts: nat)
    requires Settling(s) && !v.IpOk?
    ensures Settling(Callback(s, v, maxAttempts))
    ensures var t := Callback(s, v, maxAttempts); t.c.cfg == s.c.cfg && (t.e == s.e || t.e == s.e.(st := Off))
  {
    hide StartRetry;
    var s1 := Note(s.(c := s.c.(last := v, received := true)), Told(v));
    StartRetryInv(s1.(c := s1.c.(fault := true, activity := 3)));
  }

  lemma SettledInv(s: Sys)
    requires Settling(s) && (s.e.st.Off? || (s.e.st.RateLimit? && s.e.ip == s.c.cfg))
    ensures Inv(s)
  {
  }

  lemma RestartInv(s: Sys, maxAttempts: nat)
    requires Settling(s) && s.e.ip == s.c.cfg
    ensures Inv(Restart(s, maxAttempts))
  {
    hide Callback, Summarize;
    var s1 := s.(e := s.e.(numConflicts := (s.e.numConflicts + 1) % 256));
    assert Settling(s1);
    ConflictCallbackInv(s1, Decline, maxAttempts);
    var s2 := Callback(s1, Decline, maxAttempts);
    if s2.e.numConflicts < MAX_CONFLICTS {
      var s3 := StopEngine(s2);
      assert Settling(s3);
      ConflictCallbackInv(s3, RestartClient, maxAttempts);
      SettledInv(Callback(s3, RestartClient, maxAttempts));
    } else {
      SettledInv(s2.(e := s2.e.(st := RateLimit, ttw := RATE_LIMIT_TICKS)));
    }
  }

  lemma HearArpInv(s: Sys, sender: Ip4, target: Ip4, foreign: bool, maxAttempts: nat)
    requires Inv(s)
    ensures Inv(Step(s, ArpHeard(sender, target, foreign), maxAttempts))
  {
    hide Restart;
    if InProbePhase(s.e) || s.e.st.Announcing? || s.e.st.Ongoing? {
      RestartInv(Note(s, Heard(sender, target, foreign)), maxAttempts);
    }
    if InProbePhase(s.e) || s.e.st.Off? || s.e.st.RateLimit? {
    } else if s.e.st.Announcing? {
    } else {
    }
  }

  lemma TickAnnouncingInv(s: Sys, maxAttempts: nat)
    requires Inv(s) && (s.e.st.AnnounceWait? || s.e.st.Announcing?)
    ensures Inv(Step(s, EngineTick, maxAttempts))
  {
    hide Callback;
    var s1 := Note(s, Ticked).(e := s.e.(lastConflict := CountDown(s.e.lastConflict), ttw := CountDown(s.e.ttw)));
    var e := s1.e;
    if e.ttw == 0 && e.sent + 1 >= ANNOUNCE_NUM {
      var s2 := Note(s1, AnnounceSent(e.ip));
      OkCallbackInv(s2.(e := e.(st := Ongoing, sent := 0, ttw := PERIODIC_DEFEND_TICKS)), maxAttempts);
    } else {
      var t := Step(s, EngineTick, maxAttempts);
      assert EngineAgrees(t.e, Summarize(t.h));
      assert CoordinatorAgrees(t.e, t.c, Summarize(t.h));
    }
  }

  lemma TickRateLimitInv(s: Sys, maxAttempts: nat)
    requires Inv(s) && s.e.st.RateLimit?
    ensures Inv(Step(s, EngineTick, maxAttempts))
  {
    hide Callback;
    if s.e.listed {
      var s1 := Note(s, Ticked).(e := s.e.(lastConflict := CountDown(s.e.lastConflict), ttw := CountDown(s.e.ttw)));
      assert Settling(s1);
      if s1.e.ttw == 0 {
        hide EngineAgrees, CoordinatorAgrees;
        ConflictCallbackInv(StopEngine(s1), RestartClient, maxAttempts);
        SettledInv(Callback(StopEngine(s1), RestartClient, maxAttempts));
      }
    }
  }

  lemma TickOngoingInv(s: Sys, maxAttempts: nat)
    requires Inv(s) && s.e.st.Ongoing?
    ensures Inv(Step(s, EngineTick, maxAttempts))
  {
    hide Callback;
    var t := Step(s, EngineTick, maxAttempts);
    assert EngineAgrees(t.e, Summarize(t.h));
    assert CoordinatorAgrees(t.e, t.c, Summarize(t.h));
  }

  lemma TickProbingInv(s: Sys, maxAttempts: nat)
    requires Inv(s) && (s.e.st.ProbeWait? || s.e.st.Probing?)
    ensures Inv(Step(s, EngineTick, maxAttempts))
  {
    hide Callback;
    var t := Step(s, EngineTick, maxAttempts);
    assert EngineAgrees(t.e, Summarize(t.h));
    assert CoordinatorAgrees(t.e, t.c, Summarize(t.h));
  }

  lemma TickInv(s: Sys, maxAttempts: nat)
    requires Inv(s)
    ensures Inv(Step(s, EngineTick, maxAttempts))
  {
    hide Callback;
    match s.e.st
    case AnnounceWait | Announcing => TickAnnouncingInv(s, maxAttempts);
    case RateLimit => TickRateLimitInv(s, maxAttempts);
    case Ongoing => TickOngoingInv(s, maxAttempts);
    case ProbeWait | Probing => TickProbingInv(s, maxAttempts);
    case Off =>
      assert EngineAgrees(Step(s, EngineTick, maxAttempts).e, Summarize(Then(s.h, Ticked)));
      assert CoordinatorAgrees(Step(s, EngineTick, maxAttempts).e, s.c, Summarize(Then(s.h, Ticked)));
  }

  lemma AfterPerformInv(s: Sys)
    requires Inv(s) && s.c.configured
    ensures Inv(AfterPerform(s)) && AfterPerform(s).c.configured
  {
  }

  lemma PerformInv(s: Sys, alloc: Alloc, rand: nat)
    requires Inv(s) && s.c.configured
    ensures Inv(Perform(s, alloc, rand).0) && Perform(s, alloc, rand).0.c.configured
  {
    hide Inv, Forget, RegisterAndStart;
    FailInv(s);
    ForgetInv(s);
    FailInv(Forget(s));
    RegisterInv(Forget(s), rand);
  }

  lemma FailInv(s: Sys)
    requires Inv(s) && s.c.configured
    ensures Inv(Fail(s)) && Fail(s).c.configured
  {
    hide Summarize;
  }

  lemma ForgetInv(s: Sys)
    requires Inv(s) && s.c.configured
    ensures Inv(Forget(s)) && Forget(s).c.configured && Forget(s).c.semMade && !Forget(s).c.received
  {
  }

  lemma RegisterInv(s: Sys, rand: nat)
    requires Inv(s) && s.c.configured && s.c.semMade && !s.c.received
    ensures Inv(RegisterAndStart(s, rand)) && RegisterAndStart(s, rand).c.configured
  {
  }

  lemma DeferralInv(s: Sys)
    requires Inv(s)
    ensures Inv(s.(p := s.p.(deferred := s.p.deferred + 1))) && Inv(s.(c := s.c.(activity := 2)))
    ensures s.c.pending ==> s.c.configured
  {
    hide Summarize, EngineAgrees;
  }

  lemma TryPendingInv(s: Sys, alloc: Alloc, rand: nat)
    requires Inv(s)
    ensures Inv(TryPending(s, alloc, rand).0)
  {
    hide Perform, AfterPerform, Inv;
    DeferralInv(s);
    if s.c.pending && s.p.hwValid && s.p.linkUp {
      var s1 := s.(c := s.c.(activity := 2));
      PerformInv(s1, alloc, rand);
      var (s2, blocked) := Perform(s1, alloc, rand);
      if !blocked {
        AfterPerformInv(s2);
      }
    }
  }

  lemma TryPendingThenReturnInv(s: Sys, alloc: Alloc, rand: nat)
    requires Inv(s)
    ensures Inv(TryPendingThenReturn(s, alloc, rand))
  {
    TryPendingInv(s, alloc, rand);
  }

  lemma OnConfigureInv(s: Sys, ip: Ip4, alloc: Alloc, rand: nat)
    requires Inv(s) && !s.c.configured && ip != 0
    ensures Inv(OnConfigure(s, ip, alloc, rand))
  {
    TryPendingThenReturnInv(s.(c := s.c.(configured := true, cfg := ip, pending := true, activity := 1)), alloc, rand);
  }

  lemma OnRetryTimerInv(s: Sys, queued: bool, alloc: Alloc, rand: nat)
    requires Inv(s)
    ensures Inv(OnRetryTimer(s, queued, alloc, rand))
  {
    if s.c.retryTarget {
      var s1 := Note(s.(c := s.c.(timerArmed := false, pending := true)), RetryExpired);
      assert Inv(s1);
      TryPendingThenReturnInv(s1, alloc, rand);
    }
  }

  lemma EndWaitInv(s: Sys, timedOut: bool)
    requires Inv(s) && s.c.configured
    ensures Inv(EndWait(s, timedOut)) && EndWait(s, timedOut).c.configured
  {
  }

  lemma OnWakeInv(s: Sys, fromLink: bool, timedOut: bool)
    requires Inv(s) && s.c.configured
    ensures Inv(OnWake(s, fromLink, timedOut))
  {
    hide EndWait;
    EndWaitInv(s, timedOut);
    AfterPerformInv(EndWait(s, timedOut));
  }

  lemma StepInv(s: Sys, ev: Event, maxAttempts: nat)
    requires Inv(s) && Enabled(s, ev)
    ensures Inv(Step(s, ev, maxAttempts))
  {
    match ev
    case Configure(ip, alloc, rand) => OnConfigureInv(s, ip, alloc, rand);
    case LinkEvent(alloc, rand) => TryPendingInv(s.(p := s.p.(hwValid := true)), alloc, rand);
    case LinkLostEvent =>
    case LinkFlag(up) =>
    case DeferredTimeout(alloc, rand) =>
      TryPendingThenReturnInv(s.(p := s.p.(deferred := CountDown(s.p.deferred))), alloc, rand);
    case RetryTimer(queued, alloc, rand) => OnRetryTimerInv(s, queued, alloc, rand);
    case RetryCallback(alloc, rand) =>
      TryPendingThenReturnInv(s.(p := s.p.(queuedRetries := CountDown(s.p.queuedRetries))), alloc, rand);
    case StopCallback =>
    case Wake(fromLink, timedOut) => OnWakeInv(s, fromLink, timedOut);
    case EngineTick => TickInv(s, maxAttempts);
    case ArpHeard(sender, target, foreign) => HearArpInv(s, sender, target, foreign, maxAttempts);
  }

  lemma {:induction false} RunInv(s: Sys, evs: seq<Event>, maxAttempts: nat)
    requires Inv(s) && Legal(s, evs, maxAttempts)
    ensures Inv(After(s, evs, maxAttempts))
    decreases |evs|
  {
    hide Step;
    if evs != [] {
      StepInv(s, evs[0], maxAttempts);
      RunInv(Step(s, evs[0], maxAttempts), evs[1..], maxAttempts);
    }
  }

  lemma ReachableInv(t: Sys, maxAttempts: nat)
    requires Reachable(t, maxAttempts)
    ensures Inv(t)
  {
    hide Inv;
    var evs :| Legal(BOOT, evs, maxAttempts) && After(BOOT, evs, maxAttempts) == t;
    BootInv();
    RunInv(BOOT, evs, maxAttempts);
  }

  // ---- Main results -------------------------------------------------------

  // Safety of address use. In every reachable history each installed address was the one probed last; its
  // probes and announcements were all sent, no conflicting ARP interrupted them, the engine then reported
  // IpOk, and neither a conflict verdict, nor a new probe sequence, nor a reset of the received flag came
  // between that report and the installation.
  lemma EveryInstalledAddressWasVetted(t: Sys, maxAttempts: nat)
    requires Reachable(t, maxAttempts)
    ensures InstallsJustified(t.h)
    ensures t.c.addr == AddressAfter(t.h)
    ensures t.c.addr == 0 || t.c.addr == t.c.cfg
  {
    ReachableInv(t, maxAttempts);
    SummarySent(t.h);
    SummaryIsFaithful(t.h, 0);
  }

  // A positive retry count means the interface holds no address and the fault is reported, so the branch
  // that gives up, which removes nothing itself, leaves no conflicting address behind.
  lemma RetryingMeansNoAddress(t: Sys, maxAttempts: nat)
    requires Reachable(t, maxAttempts)
    ensures t.c.retryCount > 0 ==> t.c.addr == 0 && t.c.fault
    ensures maxAttempts > 0 && t.c.retryCount >= maxAttempts ==> t.c.addr == 0 && t.c.fault
  {
    ReachableInv(t, maxAttempts);
  }

  // No verdict reaches the coordinator before its semaphore exists.
  lemma NoVerdictBeforeSemaphore(t: Sys, maxAttempts: nat)
    requires Reachable(t, maxAttempts)
    ensures !t.c.semMade ==> !t.c.received && !t.e.listed && t.e.st.Off?
  {
    ReachableInv(t, maxAttempts);
  }
}
