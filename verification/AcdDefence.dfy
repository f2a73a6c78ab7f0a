/**
  What the device makes of the ARP packets it hears, in every reachable state: which of them it ignores, defends
  against or gives way to (sections 2.1.1 and 2.4 of RFC 5227).
*/
module AcdDefence {
  import opened AcdModel
  import opened AcdProgress
  import AcdAttempts
  import AcdRetry
  import AcdSafety

  // The engine represents an address it has announced.
  predicate Represents(e: Engine) {
    e.st.Announcing? || e.st.Ongoing?
  }

  // The history says that the address was defended, less than the interval ago.
  ghost predicate DefendedLately(h: History) {
    AcdSafety.DefendedSince(h) && AcdSafety.TicksSinceDefence(h) < DEFEND_INTERVAL_TICKS
  }

  // The packet makes the device give way: while it probes, another host uses the address or probes for it; afterwards,
  // another host uses it that was answered lately.
  ghost predicate GivesWay(s: Sys, o: Obs) {
    || (InProbePhase(s.e) && (AcdSafety.ClaimedBy(o, s.c.cfg) || AcdSafety.ProbedBy(o, s.c.cfg)))
    || (Represents(s.e) && AcdSafety.ClaimedBy(o, s.c.cfg) && DefendedLately(s.h))
  }

  ghost predicate Defends(s: Sys, o: Obs) {
    Represents(s.e) && AcdSafety.ClaimedBy(o, s.c.cfg) && !DefendedLately(s.h)
  }

  // What giving way means: the coordinator knows, the engine no longer probes, announces or represents anything, and
  // below the limit no address is in use and the retry timer runs.
  ghost predicate GaveWay(s: Sys, t: Sys, maxAttempts: nat) {
    && t.c.received && !t.c.last.IpOk? && t.c.fault && t.c.activity == 3 && t.c.semGiven == (s.c.semGiven || s.c.semMade)
    && (t.e.st.Off? || t.e.st.RateLimit?)
    && (maxAttempts == 0 || s.c.retryCount < maxAttempts ==>
          t.c.addr == 0 && t.c.timerArmed && t.c.retryTarget && !t.c.registered && t.c.retryCount > s.c.retryCount)
    && (maxAttempts > 0 && s.c.retryCount >= maxAttempts ==>
          t.c.addr == s.c.addr && t.c.timerArmed == s.c.timerArmed && t.c.retryCount == s.c.retryCount)
  }

  lemma RefusalEffect(s: Sys, v: Verdict, maxAttempts: nat)
    requires !v.IpOk?
    ensures var t := Callback(s, v, maxAttempts);
            var retry := maxAttempts == 0 || s.c.retryCount < maxAttempts;
            && t.e == (if retry && s.c.registered then s.e.(st := Off) else s.e)
            && t.c.received && t.c.last == v && t.c.fault && t.c.activity == 3 && t.c.semMade == s.c.semMade
            && t.c.semGiven == (s.c.semGiven || s.c.semMade)
            && t.c.retryCount == s.c.retryCount + (if retry then 1 else 0)
            && t.c.timerArmed == (s.c.timerArmed || retry) && t.c.retryTarget == (s.c.retryTarget || retry)
            && t.c.registered == (s.c.registered && !retry) && t.c.addr == (if retry then 0 else s.c.addr)
  {
  }

  lemma RestartGivesWay(s: Sys, maxAttempts: nat)
    ensures GaveWay(s, Restart(s, maxAttempts), maxAttempts)
  {
    hide Callback;
    var s1 := s.(e := s.e.(numConflicts := (s.e.numConflicts + 1) % 256));
    var s2 := Callback(s1, Decline, maxAttempts);
    RefusalEffect(s1, Decline, maxAttempts);
    RefusalEffect(StopEngine(s2), RestartClient, maxAttempts);
  }

  // In every reachable state, whatever packet is heard: the device gives way, or it defends the address by an
  // announcement and goes on as before, or it takes no notice.
  lemma PacketDecides(s: Sys, sender: Ip4, target: Ip4, foreign: bool, maxAttempts: nat)
    requires Reachable(s, maxAttempts)
    ensures var o := Heard(sender, target, foreign);
            var t := Step(s, ArpHeard(sender, target, foreign), maxAttempts);
            if GivesWay(s, o) then GaveWay(s, t, maxAttempts)
            else if Defends(s, o) then
              t == s.(e := s.e.(lastConflict := DEFEND_INTERVAL_TICKS), h := Then(Then(s.h, o), Defended))
            else t == s.(h := Then(s.h, o))
  {
    hide Restart, GaveWay;
    AcdSafety.ReachableInv(s, maxAttempts);
    AcdSafety.SummarySent(s.h);
    AcdSafety.SummaryDefended(s.h);
    RestartGivesWay(Note(s, Heard(sender, target, foreign)), maxAttempts);
    GaveWayNoted(s, Heard(sender, target, foreign), maxAttempts);
    hide AcdSafety.Summarize;
  }

  lemma GaveWayNoted(s: Sys, o: Obs, maxAttempts: nat)
    requires GaveWay(Note(s, o), Restart(Note(s, o), maxAttempts), maxAttempts)
    ensures GaveWay(s, Restart(Note(s, o), maxAttempts), maxAttempts)
  {
    hide Restart;
  }

  // ---- Two claims in a row ----------------------------------------------------

  // A defended address in use, with so many ticks since
  ghost predicate Answered(s: Sys, ticks: nat, cfg: Ip4) {
    InUse(s, cfg) && AcdSafety.DefendedSince(s.h) && AcdSafety.TicksSinceDefence(s.h) == ticks
  }

  lemma StepAnswered(s: Sys, ev: Event, ticks: nat, maxAttempts: nat)
    requires Answered(s, ticks, s.c.cfg) && Enabled(s, ev) && Undisturbed(s, ev)
    ensures Answered(Step(s, ev, maxAttempts), ticks + if ev.EngineTick? then 1 else 0, s.c.cfg)
  {
    StepInUse(s, ev, maxAttempts);
    match ev
    case EngineTick => TickAnswered(s, maxAttempts);
    case Wake(fromLink, timedOut) => assert EndWait(s, timedOut).h == s.h;
    case _ =>
  }

  lemma TickAnswered(s: Sys, maxAttempts: nat)
    requires AcdSafety.DefendedSince(s.h) && s.e.st.Ongoing?
    ensures var h := Tick(Note(s, Ticked), maxAttempts).h;
            AcdSafety.DefendedSince(h) && AcdSafety.TicksSinceDefence(h) == AcdSafety.TicksSinceDefence(s.h) + 1
  {
    hide Callback;
  }

  lemma {:induction false} RunAnswered(s: Sys, evs: seq<Event>, ticks: nat, maxAttempts: nat)
    requires Answered(s, ticks, s.c.cfg) && Legal(s, evs, maxAttempts) && AllUndisturbed(s, evs, maxAttempts)
    ensures Answered(After(s, evs, maxAttempts), ticks + TickCount(evs), s.c.cfg) && After(s, evs, maxAttempts).c.cfg == s.c.cfg
    decreases |evs|
  {
    hide Step, Enabled, Undisturbed;
    if evs != [] {
      StepAnswered(s, evs[0], ticks, maxAttempts);
      RunAnswered(Step(s, evs[0], maxAttempts), evs[1..], ticks + if evs[0].EngineTick? then 1 else 0, maxAttempts);
    }
  }

  lemma {:induction false} ReachableRun(s: Sys, evs: seq<Event>, maxAttempts: nat)
    requires Reachable(s, maxAttempts) && Legal(s, evs, maxAttempts)
    ensures Reachable(After(s, evs, maxAttempts), maxAttempts)
    decreases |evs|
  {
    hide Step, Enabled, Reachable;
    if evs != [] {
      AcdAttempts.ReachableStep(s, evs[0], maxAttempts);
      ReachableRun(Step(s, evs[0], maxAttempts), evs[1..], maxAttempts);
    }
  }

  // From every reachable state with the address in use: another host uses it, and after any run without disturbance it
  // does so again. The first time the device defends itself, if it did not do so lately. The second time it does so again
  // when 100 ticks have passed; when fewer have, it gives the address up and arms the retry timer.
  lemma SecondClaimGivesWayIff(s: Sys, target: Ip4, evs: seq<Event>, target': Ip4, maxAttempts: nat)
    requires Reachable(s, maxAttempts) && InUse(s, s.c.cfg) && !DefendedLately(s.h)
    requires var s1 := Step(s, ArpHeard(s.c.cfg, target, true), maxAttempts);
             Legal(s1, evs, maxAttempts) && AllUndisturbed(s1, evs, maxAttempts)
    ensures var s1 := Step(s, ArpHeard(s.c.cfg, target, true), maxAttempts);
            var s2 := After(s1, evs, maxAttempts);
            var s3 := Step(s2, ArpHeard(s.c.cfg, target', true), maxAttempts);
            && InUse(s1, s.c.cfg) && InUse(s2, s.c.cfg)
            && if TickCount(evs) >= DEFEND_INTERVAL_TICKS then InUse(s3, s.c.cfg)
               else s3.c.received && !s3.c.last.IpOk? && s3.c.fault && s3.c.addr == 0 && s3.c.timerArmed
  {
    var cfg := s.c.cfg;
    var s1 := Step(s, ArpHeard(cfg, target, true), maxAttempts);
    hide Step, Enabled, Undisturbed, InUse;
    FirstClaim(s, target, maxAttempts);
    hide Reachable;
    LaterClaim(s1, evs, target', maxAttempts);
  }

  lemma LaterClaim(s1: Sys, evs: seq<Event>, target: Ip4, maxAttempts: nat)
    requires Reachable(s1, maxAttempts) && Answered(s1, 0, s1.c.cfg)
    requires Legal(s1, evs, maxAttempts) && AllUndisturbed(s1, evs, maxAttempts)
    ensures var s2 := After(s1, evs, maxAttempts);
            var s3 := Step(s2, ArpHeard(s1.c.cfg, target, true), maxAttempts);
            && InUse(s1, s1.c.cfg) && InUse(s2, s1.c.cfg)
            && if TickCount(evs) >= DEFEND_INTERVAL_TICKS then InUse(s3, s1.c.cfg)
               else s3.c.received && !s3.c.last.IpOk? && s3.c.fault && s3.c.addr == 0 && s3.c.timerArmed
  {
    hide Step, Enabled, Reachable, Undisturbed, InUse;
    RunAnswered(s1, evs, 0, maxAttempts);
    ReachableRun(s1, evs, maxAttempts);
    SecondClaim(After(s1, evs, maxAttempts), TickCount(evs), target, maxAttempts);
  }

  lemma FirstClaim(s: Sys, target: Ip4, maxAttempts: nat)
    requires Reachable(s, maxAttempts) && InUse(s, s.c.cfg) && !DefendedLately(s.h)
    ensures var t := Step(s, ArpHeard(s.c.cfg, target, true), maxAttempts); Reachable(t, maxAttempts) && Answered(t, 0, s.c.cfg) && t.c.cfg == s.c.cfg
  {
    PacketDecides(s, s.c.cfg, target, true, maxAttempts);
    AcdAttempts.ReachableStep(s, ArpHeard(s.c.cfg, target, true), maxAttempts);
    hide Step, Reachable;
  }

  lemma SecondClaim(s: Sys, ticks: nat, target: Ip4, maxAttempts: nat)
    requires Reachable(s, maxAttempts) && Answered(s, ticks, s.c.cfg)
    ensures var t := Step(s, ArpHeard(s.c.cfg, target, true), maxAttempts);
            if ticks >= DEFEND_INTERVAL_TICKS then InUse(t, s.c.cfg)
            else t.c.received && !t.c.last.IpOk? && t.c.fault && t.c.addr == 0 && t.c.timerArmed
  {
    PacketDecides(s, s.c.cfg, target, true, maxAttempts);
    hide Step, Reachable;
  }

  // ---- Rate limiting ------------------------------------------------------------

  // Conflict verdicts told to the coordinator
  ghost function Refusals(h: History): nat {
    match h
    case Nothing => 0
    case Then(past, o) => Refusals(past) + if o.Told? && !o.v.IpOk? then 1 else 0
  }

  lemma RefusalIsTold(s: Sys, v: Verdict, maxAttempts: nat)
    requires !v.IpOk?
    ensures Refusals(Callback(s, v, maxAttempts).h) == Refusals(s.h) + 1
  {
    hide Refuse;
    var s1 := s.(c := s.c.(last := v, received := true), h := Then(s.h, Told(v)));
    RefuseTellsNothing(s1, maxAttempts);
  }

  lemma RefuseTellsNothing(s: Sys, maxAttempts: nat)
    ensures Refusals(Refuse(s, maxAttempts).h) == Refusals(s.h)
  {
  }

  // A conflict is told twice and stops the engine, until the tenth in a row: that one is told once, and the engine waits
  // 600 ticks with the second verdict.
  lemma ConflictTells(s: Sys, maxAttempts: nat)
    ensures var t := Restart(s, maxAttempts);
            var limited := (s.e.numConflicts + 1) % 256 >= 10;
            && t.e.numConflicts == (s.e.numConflicts + 1) % 256
            && Refusals(t.h) == Refusals(s.h) + (if limited then 1 else 2)
            && t.c.last == (if limited then Decline else RestartClient)
            && (if limited then t.e.st.RateLimit? && t.e.ttw == 600 else t.e.st.Off?)
  {
    hide Callback;
    var s1 := s.(e := s.e.(numConflicts := (s.e.numConflicts + 1) % 256));
    var s2 := Callback(s1, Decline, maxAttempts);
    RefusalEffect(s1, Decline, maxAttempts);
    RefusalIsTold(s1, Decline, maxAttempts);
    RefusalEffect(StopEngine(s2), RestartClient, maxAttempts);
    RefusalIsTold(StopEngine(s2), RestartClient, maxAttempts);
  }

  lemma RateLimitTick(s: Sys, maxAttempts: nat)
    requires s.e.listed && s.e.st.RateLimit? && s.e.ttw > 0
    ensures var t := Step(s, EngineTick, maxAttempts);
            if s.e.ttw > 1 then
              t.e.listed && t.e.st.RateLimit? && t.e.ttw == s.e.ttw - 1 && t.c == s.c && Refusals(t.h) == Refusals(s.h)
            else t.e.st.Off? && t.c.received && t.c.last == RestartClient && Refusals(t.h) == Refusals(s.h) + 1
  {
    hide Callback;
    var s1 := Note(s, Ticked).(e := s.e.(lastConflict := CountDown(s.e.lastConflict), ttw := CountDown(s.e.ttw)));
    RefusalEffect(StopEngine(s1), RestartClient, maxAttempts);
    RefusalIsTold(StopEngine(s1), RestartClient, maxAttempts);
  }

  // The second verdict comes with the last of those ticks, and not before.
  lemma {:induction false} RateLimitEnds(s: Sys, n: nat, maxAttempts: nat)
    requires s.e.listed && s.e.st.RateLimit? && 0 < n <= s.e.ttw
    ensures Legal(s, Ticks(n), maxAttempts)
    ensures var t := After(s, Ticks(n), maxAttempts);
            if n < s.e.ttw then t.e.st.RateLimit? && t.c == s.c && Refusals(t.h) == Refusals(s.h)
            else t.e.st.Off? && t.c.received && t.c.last == RestartClient && Refusals(t.h) == Refusals(s.h) + 1
    decreases n
  {
    RateLimitTick(s, maxAttempts);
    hide Step;
    var t := Step(s, EngineTick, maxAttempts);
    assert Ticks(n)[1..] == Ticks(n - 1) && Ticks(n)[0] == EngineTick;
    if n > 1 {
      RateLimitEnds(t, n - 1, maxAttempts);
    } else {
      assert Ticks(0) == [];
    }
  }

  // ---- Periodic probes ------------------------------------------------------------

  ghost function Periodic(h: History): nat {
    match h
    case Nothing => 0
    case Then(past, o) => Periodic(past) + if o.PeriodicProbe? then 1 else 0
  }

  // The address in use is probed for every 900 ticks, whatever else happens that does not disturb it.
  ghost predicate Probed(s: Sys, ticks: nat, probes: nat) {
    && s.e.listed && 1 <= s.e.ttw <= PERIODIC_DEFEND_TICKS
    && ticks == PERIODIC_DEFEND_TICKS * Periodic(s.h) - PERIODIC_DEFEND_TICKS * probes + PERIODIC_DEFEND_TICKS - s.e.ttw
  }

  lemma StepProbed(s: Sys, ev: Event, ticks: nat, probes: nat, maxAttempts: nat)
    requires InUse(s, s.c.cfg) && Probed(s, ticks, probes) && Enabled(s, ev) && Undisturbed(s, ev)
    ensures Probed(Step(s, ev, maxAttempts), ticks + if ev.EngineTick? then 1 else 0, probes)
  {
    hide Callback;
    match ev
    case EngineTick => TickProbed(s, ticks, probes, maxAttempts);
    case Wake(fromLink, timedOut) => WakeProbed(s, fromLink, timedOut);
    case _ =>
  }

  lemma TickProbed(s: Sys, ticks: nat, probes: nat, maxAttempts: nat)
    requires s.e.st.Ongoing? && Probed(s, ticks, probes)
    ensures Probed(Step(s, EngineTick, maxAttempts), ticks + 1, probes)
  {
    hide Callback;
    assert Periodic(Then(s.h, Ticked)) == Periodic(s.h);
  }

  lemma WakeProbed(s: Sys, fromLink: bool, timedOut: bool)
    ensures var t := OnWake(s, fromLink, timedOut); t.e == s.e && Periodic(t.h) == Periodic(s.h)
  {
    hide AfterPerform;
    AfterPerformProbed(EndWait(s, timedOut));
  }

  lemma AfterPerformProbed(s: Sys)
    ensures AfterPerform(s).e == s.e && Periodic(AfterPerform(s).h) == Periodic(s.h)
  {
  }

  lemma {:induction false} RunProbed(s: Sys, evs: seq<Event>, ticks: nat, probes: nat, maxAttempts: nat)
    requires InUse(s, s.c.cfg) && Probed(s, ticks, probes)
    requires Legal(s, evs, maxAttempts) && AllUndisturbed(s, evs, maxAttempts)
    ensures Probed(After(s, evs, maxAttempts), ticks + TickCount(evs), probes)
    decreases |evs|
  {
    hide Step, Enabled, Undisturbed, Probed;
    if evs != [] {
      StepProbed(s, evs[0], ticks, probes, maxAttempts);
      StepInUse(s, evs[0], maxAttempts);
      RunProbed(Step(s, evs[0], maxAttempts), evs[1..], ticks + if evs[0].EngineTick? then 1 else 0, probes, maxAttempts);
    }
  }

  // From every reachable state with the address in use, over every run that does not disturb it: one periodic probe for
  // every 900 ticks, counted from the last one or from the verdict.
  lemma ProbesPeriodically(s: Sys, evs: seq<Event>, maxAttempts: nat)
    requires Reachable(s, maxAttempts) && InUse(s, s.c.cfg)
    requires Legal(s, evs, maxAttempts) && AllUndisturbed(s, evs, maxAttempts)
    ensures 1 <= s.e.ttw <= 900
    ensures Periodic(After(s, evs, maxAttempts).h) == Periodic(s.h) + (TickCount(evs) + (900 - s.e.ttw)) / 900
  {
    AcdSafety.ReachableInv(s, maxAttempts);
    var elapsed := PERIODIC_DEFEND_TICKS - s.e.ttw;
    RunProbed(s, evs, elapsed, Periodic(s.h), maxAttempts);
  }
}
