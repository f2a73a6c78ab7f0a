/**
  An undisturbed probe sequence ends in the installation of the address, after a known number of engine ticks.
*/
module AcdProgress {
  import opened AcdModel
  import AcdSafety

  // Ticks until the engine reports IpOk, if no conflicting ARP is heard and nobody stops it.
  ghost function TicksLeft(e: Engine): nat {
    var now := if e.ttw > 1 then e.ttw else 1;
    var announcing := (ANNOUNCE_NUM - 1) * ANNOUNCE_INTERVAL_TICKS;
    match e.st
    case ProbeWait | Probing =>
      if e.sent >= PROBE_NUM then 0
      else now + (PROBE_NUM - 1 - e.sent) * PROBE_INTERVAL_TICKS + ANNOUNCE_WAIT_TICKS + announcing
    case AnnounceWait | Announcing =>
      if e.sent >= ANNOUNCE_NUM then 0 else now + (ANNOUNCE_NUM - 1 - e.sent) * ANNOUNCE_INTERVAL_TICKS
    case _ => 0
  }

  ghost predicate OnTheWay(e: Engine) {
    && e.listed
    && (InProbePhase(e) || e.st.Announcing?)
    && TicksLeft(e) > 0
    && (e.st.ProbeWait? || e.st.AnnounceWait? ==> e.sent == 0)
    && (e.st.Announcing? ==> e.sent >= 1)
  }

  // Every tick before the last brings IpOk one tick closer and tells the coordinator nothing.
  lemma TickIsProgress(s: Sys, maxAttempts: nat)
    requires OnTheWay(s.e) && TicksLeft(s.e) > 1
    ensures var t := Tick(s, maxAttempts);
            OnTheWay(t.e) && TicksLeft(t.e) == TicksLeft(s.e) - 1 && t.c == s.c && t.p == s.p
  {
  }

  // The last tick confirms the address, and installs it if it is still wanted.
  lemma LastTick(s: Sys, maxAttempts: nat)
    requires OnTheWay(s.e) && TicksLeft(s.e) == 1
    ensures var t := Tick(s, maxAttempts);
            && t.e.st.Ongoing? && t.c.received && t.c.last.IpOk?
            && t.c.retryCount == 0 && !t.c.fault && !t.c.timerArmed
            && t.c.cfg == s.c.cfg && t.c.configured == s.c.configured && t.c.activity == 1
            && (s.c.pending && s.c.cfg != 0 ==> t.c.addr == s.c.cfg && !t.c.pending)
  {
  }

  ghost function Ticks(n: nat): seq<Event> {
    seq(n, _ => EngineTick)
  }

  lemma {:induction false} UndisturbedTicks(s: Sys, n: nat, maxAttempts: nat)
    requires OnTheWay(s.e) && n < TicksLeft(s.e)
    ensures Legal(s, Ticks(n), maxAttempts)
    ensures var t := After(s, Ticks(n), maxAttempts);
            OnTheWay(t.e) && TicksLeft(t.e) == TicksLeft(s.e) - n && t.c == s.c
    decreases n
  {
    hide Tick;
    if n > 0 {
      TickIsProgress(Note(s, Ticked), maxAttempts);
      assert Ticks(n)[1..] == Ticks(n - 1);
      UndisturbedTicks(Tick(Note(s, Ticked), maxAttempts), n - 1, maxAttempts);
    }
  }

  const UNDISTURBED_TICKS: nat := 85

  // From the start of a probe sequence the verdict comes after exactly 85 ticks (8.5 s) and not earlier, well
  // past the 2 s that tcpip_perform_acd waits; with it the wanted address is installed and all retry state
  // is reset.
  lemma UndisturbedProbeInstalls(s0: Sys, rand: nat, n: nat, maxAttempts: nat)
    requires s0.e.listed && s0.c.pending && s0.c.cfg != 0
    requires n < UNDISTURBED_TICKS
    ensures var s := StartEngine(s0, s0.c.cfg, rand);
            && Legal(s, Ticks(UNDISTURBED_TICKS), maxAttempts)
            && After(s, Ticks(n), maxAttempts).c == s0.c
            && var t := After(s, Ticks(UNDISTURBED_TICKS), maxAttempts);
               t.c.addr == s0.c.cfg && !t.c.pending && t.c.retryCount == 0 && !t.c.fault && !t.c.timerArmed
  {
    var s := StartEngine(s0, s0.c.cfg, rand);
    assert TicksLeft(s.e) == UNDISTURBED_TICKS;
    UndisturbedTicks(s, n, maxAttempts);
    UndisturbedTicks(s, UNDISTURBED_TICKS - 1, maxAttempts);
    var s1 := After(s, Ticks(UNDISTURBED_TICKS - 1), maxAttempts);
    LastTick(Note(s1, Ticked), maxAttempts);
    assert Ticks(1)[1..] == [];
    assert Legal(s1, Ticks(1), maxAttempts) && After(s1, Ticks(1), maxAttempts) == Tick(Note(s1, Ticked), maxAttempts);
    RunsCompose(s, Ticks(UNDISTURBED_TICKS - 1), Ticks(1), maxAttempts);
    assert Ticks(UNDISTURBED_TICKS - 1) + Ticks(1) == Ticks(UNDISTURBED_TICKS);
  }

  // ---- The same with everything else going on ------------------------------

  predicate Sounding(e: Engine) {
    InProbePhase(e) || e.st.Announcing?
  }

  // While the engine probes or announces, the coordinator waits for its verdict.
  ghost predicate Waiting(s: Sys) {
    Sounding(s.e) ==>
      && !s.c.received && s.c.last.IpOk? && !s.c.semGiven && s.c.pending
      && (s.e.st.ProbeWait? ==> s.e.ttw < PROBE_WAIT_TICKS)
  }

  lemma PerformWaiting(s: Sys, alloc: Alloc, rand: nat)
    requires Waiting(s) && s.c.pending
    ensures Waiting(Perform(s, alloc, rand).0) && Perform(s, alloc, rand).0.c.pending
  {
  }

  lemma AfterPerformWaiting(s: Sys)
    requires Waiting(s)
    ensures Waiting(AfterPerform(s))
  {
  }

  lemma TryPendingWaiting(s: Sys, alloc: Alloc, rand: nat)
    requires Waiting(s)
    ensures Waiting(TryPending(s, alloc, rand).0)
  {
    hide Perform, AfterPerform;
    if s.c.pending && s.p.hwValid && s.p.linkUp {
      PerformWaiting(s.(c := s.c.(activity := 2)), alloc, rand);
      AfterPerformWaiting(Perform(s.(c := s.c.(activity := 2)), alloc, rand).0);
    }
  }

  lemma TryPendingThenReturnWaiting(s: Sys, alloc: Alloc, rand: nat)
    requires Waiting(s)
    ensures Waiting(TryPendingThenReturn(s, alloc, rand))
  {
    hide TryPending;
    TryPendingWaiting(s, alloc, rand);
  }

  // A conflict verdict leaves the engine as it is, or stops it.
  lemma RefusalKeepsEngine(s: Sys, v: Verdict, maxAttempts: nat)
    requires !v.IpOk?
    ensures Callback(s, v, maxAttempts).e == s.e || Callback(s, v, maxAttempts).e == s.e.(st := Off)
  {
  }

  lemma RestartWaiting(s: Sys, maxAttempts: nat)
    ensures Waiting(Restart(s, maxAttempts))
  {
    hide Callback;
    var s1 := s.(e := s.e.(numConflicts := (s.e.numConflicts + 1) % 256));
    RefusalKeepsEngine(s1, Decline, maxAttempts);
    RefusalKeepsEngine(StopEngine(Callback(s1, Decline, maxAttempts)), RestartClient, maxAttempts);
  }

  lemma OkKeepsEngine(s: Sys, maxAttempts: nat)
    ensures Callback(s, IpOk, maxAttempts).e == s.e
  {
  }

  lemma TickWaiting(s: Sys, maxAttempts: nat)
    requires Waiting(s)
    ensures Waiting(Tick(s, maxAttempts))
  {
    hide Callback;
    var s1 := s.(e := s.e.(lastConflict := CountDown(s.e.lastConflict), ttw := CountDown(s.e.ttw)));
    var e := s1.e;
    if e.ttw == 0 {
      var e1 := if e.sent == 0 then e.(st := Announcing, numConflicts := 0) else e;
      OkKeepsEngine(Note(s1, AnnounceSent(e.ip)).(e := e1.(st := Ongoing, sent := 0, ttw := PERIODIC_DEFEND_TICKS)), maxAttempts);
      RefusalKeepsEngine(StopEngine(s1), RestartClient, maxAttempts);
    }
  }

  lemma StepWaiting(s: Sys, ev: Event, maxAttempts: nat)
    requires Waiting(s) && Enabled(s, ev)
    ensures Waiting(Step(s, ev, maxAttempts))
  {
    hide TryPending, TryPendingThenReturn, Tick, Restart, AfterPerform;
    match ev
    case Configure(ip, alloc, rand) =>
      TryPendingThenReturnWaiting(s.(c := s.c.(configured := true, cfg := ip, pending := true, activity := 1)), alloc, rand);
    case LinkEvent(alloc, rand) => TryPendingWaiting(s.(p := s.p.(hwValid := true)), alloc, rand);
    case LinkLostEvent =>
    case LinkFlag(_) =>
    case DeferredTimeout(alloc, rand) =>
      TryPendingThenReturnWaiting(s.(p := s.p.(deferred := CountDown(s.p.deferred))), alloc, rand);
    case RetryTimer(queued, alloc, rand) =>
      TryPendingThenReturnWaiting(Note(s.(c := s.c.(timerArmed := false, pending := true)), RetryExpired), alloc, rand);
    case RetryCallback(alloc, rand) =>
      TryPendingThenReturnWaiting(s.(p := s.p.(queuedRetries := CountDown(s.p.queuedRetries))), alloc, rand);
    case StopCallback =>
    case Wake(fromLink, timedOut) => AfterPerformWaiting(EndWait(s, timedOut));
    case EngineTick => TickWaiting(Note(s, Ticked), maxAttempts);
    case ArpHeard(sender, target, foreign) => RestartWaiting(Note(s, Heard(sender, target, foreign)), maxAttempts);
  }

  lemma {:induction false} RunWaiting(s: Sys, evs: seq<Event>, maxAttempts: nat)
    requires Waiting(s) && Legal(s, evs, maxAttempts)
    ensures Waiting(After(s, evs, maxAttempts))
    decreases |evs|
  {
    hide Step, Waiting, Enabled;
    if evs != [] {
      StepWaiting(s, evs[0], maxAttempts);
      RunWaiting(Step(s, evs[0], maxAttempts), evs[1..], maxAttempts);
    }
  }

  // The event neither stops the engine nor starts a probe, and no foreign ARP concerns the address. While an address is
  // pending, every attempt would start a new probe.
  predicate Undisturbed(s: Sys, ev: Event) {
    match ev
    case EngineTick | LinkLostEvent => true
    case Wake(_, _) => true
    case LinkFlag(up) => up
    case ArpHeard(sender, target, foreign) => foreign ==> sender != s.e.ip && (sender != 0 || target != s.e.ip)
    case LinkEvent(_, _) => !s.c.pending
    case DeferredTimeout(_, _) => !s.c.pending
    case RetryTimer(queued, _, _) => queued || !s.c.retryTarget
    case RetryCallback(_, _) => !s.c.pending || !s.c.retryTarget
    case StopCallback => false
    case Configure(_, _, _) => false
  }

  ghost predicate AllUndisturbed(s: Sys, evs: seq<Event>, maxAttempts: nat)
    decreases |evs|
  {
    evs == []
    || (Undisturbed(s, evs[0]) && AllUndisturbed(Step(s, evs[0], maxAttempts), evs[1..], maxAttempts))
  }

  function TickCount(evs: seq<Event>): nat {
    if evs == [] then 0 else (if evs[0].EngineTick? then 1 else 0) + TickCount(evs[1..])
  }

  // n ticks in front of the verdict, with this address in use and that one wanted
  ghost predicate Before(s: Sys, n: nat, addr: Ip4, cfg: Ip4) {
    && OnTheWay(s.e) && TicksLeft(s.e) == n
    && s.c.addr == addr && s.c.cfg == cfg != 0 && s.c.pending && !s.c.received && s.c.last.IpOk? && !s.c.semGiven
  }

  // Behind it
  ghost predicate InUse(s: Sys, cfg: Ip4) {
    && s.e.st.Ongoing? && s.c.received && s.c.last.IpOk?
    && s.c.addr == s.c.cfg == cfg && !s.c.pending && s.c.retryCount == 0 && !s.c.fault && !s.c.timerArmed
    && s.c.activity == 1
  }

  lemma StepBefore(s: Sys, ev: Event, n: nat, addr: Ip4, maxAttempts: nat)
    requires Before(s, n, addr, s.c.cfg) && Enabled(s, ev) && Undisturbed(s, ev)
    ensures var t := Step(s, ev, maxAttempts);
            if !ev.EngineTick? then Before(t, n, addr, s.c.cfg)
            else if n > 1 then Before(t, n - 1, addr, s.c.cfg)
            else InUse(t, s.c.cfg)
  {
    hide Tick;
    if ev.EngineTick? {
      if n > 1 {
        TickIsProgress(Note(s, Ticked), maxAttempts);
      } else {
        LastTick(Note(s, Ticked), maxAttempts);
      }
    }
  }

  lemma StepInUse(s: Sys, ev: Event, maxAttempts: nat)
    requires InUse(s, s.c.cfg) && Enabled(s, ev) && Undisturbed(s, ev)
    ensures InUse(Step(s, ev, maxAttempts), s.c.cfg)
  {
  }

  lemma {:induction false} RunInUse(s: Sys, evs: seq<Event>, maxAttempts: nat)
    requires InUse(s, s.c.cfg) && Legal(s, evs, maxAttempts) && AllUndisturbed(s, evs, maxAttempts)
    ensures InUse(After(s, evs, maxAttempts), s.c.cfg)
    decreases |evs|
  {
    hide Step, Enabled, Undisturbed;
    if evs != [] {
      StepInUse(s, evs[0], maxAttempts);
      RunInUse(Step(s, evs[0], maxAttempts), evs[1..], maxAttempts);
    }
  }

  lemma {:induction false} RunBefore(s: Sys, evs: seq<Event>, n: nat, addr: Ip4, maxAttempts: nat)
    requires Before(s, n, addr, s.c.cfg) && n > 0 && Legal(s, evs, maxAttempts) && AllUndisturbed(s, evs, maxAttempts)
    ensures var t := After(s, evs, maxAttempts);
            if TickCount(evs) < n then Before(t, n - TickCount(evs), addr, s.c.cfg) else InUse(t, s.c.cfg)
    decreases |evs|
  {
    hide Step, Enabled, Undisturbed;
    if evs != [] {
      var t := Step(s, evs[0], maxAttempts);
      StepBefore(s, evs[0], n, addr, maxAttempts);
      if !evs[0].EngineTick? {
        RunBefore(t, evs[1..], n, addr, maxAttempts);
      } else if n > 1 {
        RunBefore(t, evs[1..], n - 1, addr, maxAttempts);
      } else {
        RunInUse(t, evs[1..], maxAttempts);
      }
    }
  }

  // From any reachable state in which the engine probes or announces, over every run that hears no conflict, loses no
  // link and starts no new probe, whatever waits end, retry timers expire and packets come in between: the verdict
  // comes with exactly the tick it is due, the address in use stays as it was until then, and the wanted one is in use
  // from then on, with all retry state reset. In the first state of a probe it is due after 85 ticks.
  lemma UndisturbedRunInstalls(s: Sys, evs: seq<Event>, maxAttempts: nat)
    requires Reachable(s, maxAttempts) && Sounding(s.e)
    requires Legal(s, evs, maxAttempts) && AllUndisturbed(s, evs, maxAttempts)
    ensures TicksLeft(s.e) > 0 && s.c.cfg != 0
    ensures s.e.st.ProbeWait? ==> TicksLeft(s.e) == UNDISTURBED_TICKS
    ensures var t := After(s, evs, maxAttempts);
            if TickCount(evs) < TicksLeft(s.e)
            then Before(t, TicksLeft(s.e) - TickCount(evs), s.c.addr, s.c.cfg)
            else InUse(t, s.c.cfg)
  {
    var past :| Legal(BOOT, past, maxAttempts) && After(BOOT, past, maxAttempts) == s;
    AcdSafety.ReachableInv(s, maxAttempts);
    hide AcdSafety.Inv;
    RunWaiting(BOOT, past, maxAttempts);
    SoundingIsOnTheWay(s);
    RunBefore(s, evs, TicksLeft(s.e), s.c.addr, maxAttempts);
  }

  lemma SoundingIsOnTheWay(s: Sys)
    requires AcdSafety.Inv(s) && Waiting(s) && Sounding(s.e)
    ensures TicksLeft(s.e) > 0 && Before(s, TicksLeft(s.e), s.c.addr, s.c.cfg)
    ensures s.e.st.ProbeWait? ==> TicksLeft(s.e) == UNDISTURBED_TICKS
  {
    hide AcdSafety.Summarize;
  }
}
