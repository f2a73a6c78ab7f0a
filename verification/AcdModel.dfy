/**
  Static-address acquisition with address conflict detection (ACD).

  The state joins three parties that the firmware runs side by side:
    - the coordinator of main/main.c (its static flags, counters and timers),
    - the lwIP ACD engine of components/lwip/lwip/src/core/ipv4/acd.c,
    - the pending work of the platform: timeouts, queued callbacks, tasks that
      are blocked on the ACD semaphore, and the link.

  Every function below is the effect of one uninterrupted piece of source code.
  The wait inside tcpip_perform_acd splits tcpip_try_pending_acd in two: what
  comes before it (TryPending) and what comes after it (Wake).
*/
module AcdModel {

  // An IPv4 address as the 32-bit number it is stored as; 0 is "any".
  type Ip4 = a: nat | a < 0x1_0000_0000

  // Timing configuration of the image, in engine ticks of 100 ms.
  const PROBE_NUM: nat := 3
  const PROBE_WAIT_TICKS: nat := 2
  const PROBE_INTERVAL_TICKS: nat := 2
  const ANNOUNCE_NUM: nat := 4
  const ANNOUNCE_WAIT_TICKS: nat := 20
  const ANNOUNCE_INTERVAL_TICKS: nat := 20
  const PERIODIC_DEFEND_TICKS: nat := 900
  const DEFEND_INTERVAL_TICKS: nat := 100
  const MAX_CONFLICTS: nat := 10
  const RATE_LIMIT_TICKS: nat := 600

  datatype Verdict = IpOk | RestartClient | Decline

  datatype EngineState = Off | ProbeWait | Probing | AnnounceWait | Announcing | Ongoing | RateLimit

  // struct acd, plus whether it is on the interface's list of ACD clients.
  datatype Engine = Engine(
    listed: bool,
    st: EngineState,
    ip: Ip4,
    sent: nat,
    ttw: nat,
    lastConflict: nat,
    numConflicts: nat)

  // The static variables of main.c. cfg is the address of s_pending_static_ip_cfg,
  // addr the address last stored with esp_netif_set_ip_info.
  datatype Coordinator = Coordinator(
    configured: bool,
    cfg: Ip4,
    addr: Ip4,
    pending: bool,
    registered: bool,
    received: bool,
    last: Verdict,
    semMade: bool,
    semGiven: bool,
    regSemMade: bool,
    retryCount: nat,
    retryTarget: bool,
    timerArmed: bool,
    fault: bool,
    activity: nat)

  // Work the platform still owes to the coordinator.
  datatype Platform = Platform(
    linkUp: bool,
    hwValid: bool,
    deferred: nat,
    queuedRetries: nat,
    queuedStops: nat,
    linkWaiters: nat,
    otherWaiters: nat)

  // What can be observed from outside, in the order in which it happened.
  datatype Obs =
    | Cleared
    | Started(ip: Ip4)
    | ProbeSent(ip: Ip4)
    | AnnounceSent(ip: Ip4)
    | PeriodicProbe(ip: Ip4)
    | Heard(sender: Ip4, target: Ip4, foreign: bool)   // an ARP packet, whatever is made of it
    | Ticked                                           // a tick of the engine's timer
    | Defended                                         // an announcement in answer to a conflict
    | Told(v: Verdict)
    | Installed(ip: Ip4)
    | Removed
    | RetryExpired

  // Observations, oldest first.
  datatype History = Nothing | Then(past: History, now: Obs)

  datatype Sys = Sys(e: Engine, c: Coordinator, p: Platform, h: History)

  // Outcome of the allocations that tcpip_perform_acd makes on its way.
  datatype Alloc = AllocOk | NoSemaphore | NoContext | NoRegistrationSemaphore

  datatype Event =
    | Configure(ip: Ip4, alloc: Alloc, rand: nat)
    | LinkEvent(alloc: Alloc, rand: nat)
    | LinkLostEvent
    | LinkFlag(up: bool)
    | DeferredTimeout(alloc: Alloc, rand: nat)
    | RetryTimer(queued: bool, alloc: Alloc, rand: nat)
    | RetryCallback(alloc: Alloc, rand: nat)
    | StopCallback
    | Wake(fromLink: bool, timedOut: bool)
    | EngineTick
    | ArpHeard(sender: Ip4, target: Ip4, foreign: bool)

  const IDLE_ENGINE := Engine(false, Off, 0, 0, 0, 0, 0)

  const BOOT := Sys(
    IDLE_ENGINE,
    Coordinator(false, 0, 0, false, false, false, IpOk, false, false, false, 0, false, false, false, 0),
    Platform(false, false, 0, 0, 0, 0, 0),
    Nothing)

  function Note(s: Sys, o: Obs): Sys {
    s.(h := Then(s.h, o))
  }

  // acd_stop
  function StopEngine(s: Sys): Sys {
    s.(e := s.e.(st := Off))
  }

  // tcpip_acd_start_retry: count, remove the address, stop and forget the engine, arm the timer.
  function StartRetry(s: Sys): Sys {
    s.(e := if s.c.registered then s.e.(st := Off) else s.e,
       c := s.c.(retryCount := s.c.retryCount + 1, retryTarget := true, addr := 0, registered := false, timerArmed := true),
       h := Then(s.h, Removed))
  }

  // The part of tcpip_acd_conflict_callback for ACD_IP_OK: an address that is still pending is installed.
  function Confirm(s: Sys): Sys {
    var install := s.c.pending && s.c.cfg != 0;
    s.(c := s.c.(fault := false, activity := 1, retryCount := 0, timerArmed := false,
                 addr := if install then s.c.cfg else s.c.addr,
                 pending := s.c.pending && !install),
       h := if install then Then(s.h, Installed(s.c.cfg)) else s.h)
  }

  // The part for ACD_DECLINE and ACD_RESTART_CLIENT; maxAttempts = 0 means no limit.
  function Refuse(s: Sys, maxAttempts: nat): Sys {
    var s1 := s.(c := s.c.(fault := true, activity := 3));
    if maxAttempts == 0 || s.c.retryCount < maxAttempts then StartRetry(s1) else s1
  }

  // tcpip_acd_conflict_callback
  function Callback(s: Sys, v: Verdict, maxAttempts: nat): Sys {
    var s1 := s.(c := s.c.(last := v, received := true), h := Then(s.h, Told(v)));
    var s2 := if v.IpOk? then Confirm(s1) else Refuse(s1, maxAttempts);
    s2.(c := s2.c.(semGiven := s2.c.semGiven || s2.c.semMade))
  }

  // acd_restart: the client is told twice unless the rate limit is reached.
  function Restart(s: Sys, maxAttempts: nat): Sys {
    var s1 := s.(e := s.e.(numConflicts := (s.e.numConflicts + 1) % 256));
    var s2 := Callback(s1, Decline, maxAttempts);
    if s2.e.numConflicts >= MAX_CONFLICTS then
      s2.(e := s2.e.(st := RateLimit, ttw := RATE_LIMIT_TICKS))
    else
      Callback(StopEngine(s2), RestartClient, maxAttempts)
  }

  predicate InProbePhase(e: Engine) {
    e.st.ProbeWait? || e.st.Probing? || e.st.AnnounceWait?
  }

  // acd_arp_reply and acd_handle_arp_conflict
  function HearArp(s: Sys, sender: Ip4, target: Ip4, foreign: bool, maxAttempts: nat): Sys {
    if !s.e.listed then s
    else if InProbePhase(s.e) then
      if foreign && (sender == s.e.ip || (sender == 0 && target == s.e.ip))
      then Restart(s, maxAttempts)
      else s
    else if s.e.st.Announcing? || s.e.st.Ongoing? then
      if foreign && sender == s.e.ip then
        if s.e.lastConflict > 0
        then Restart(s, maxAttempts)
        else Note(s.(e := s.e.(lastConflict := DEFEND_INTERVAL_TICKS)), Defended)
      else s
    else s
  }

  // The part of acd_tmr that depends on the engine's state, once both counters are decremented.
  function TickBody(s: Sys, maxAttempts: nat): Sys {
    var e := s.e;
    if e.ttw > 0 then s
    else match e.st
      case ProbeWait | Probing =>
        var s1 := Note(s, ProbeSent(e.ip));
        if e.sent + 1 >= PROBE_NUM
        then s1.(e := e.(st := AnnounceWait, sent := 0, ttw := ANNOUNCE_WAIT_TICKS))
        else s1.(e := e.(st := Probing, sent := e.sent + 1, ttw := PROBE_INTERVAL_TICKS))
      case AnnounceWait | Announcing =>
        var e1 := if e.sent == 0 then e.(st := Announcing, numConflicts := 0) else e;
        var s1 := Note(s, AnnounceSent(e.ip));
        if e.sent + 1 >= ANNOUNCE_NUM
        then Callback(s1.(e := e1.(st := Ongoing, sent := 0, ttw := PERIODIC_DEFEND_TICKS)), IpOk, maxAttempts)
        else s1.(e := e1.(sent := e.sent + 1, ttw := ANNOUNCE_INTERVAL_TICKS))
      case Ongoing => Note(s.(e := e.(ttw := PERIODIC_DEFEND_TICKS)), PeriodicProbe(e.ip))
      case RateLimit => Callback(StopEngine(s), RestartClient, maxAttempts)
      case Off => s
  }

  function CountDown(n: nat): nat {
    if n > 0 then n - 1 else 0
  }

  // acd_tmr
  function Tick(s: Sys, maxAttempts: nat): Sys {
    if !s.e.listed then s
    else TickBody(s.(e := s.e.(lastConflict := CountDown(s.e.lastConflict), ttw := CountDown(s.e.ttw))), maxAttempts)
  }

  function Fail(s: Sys): Sys {
    s.(c := s.c.(fault := true, activity := 3))
  }

  // tcpip_try_pending_acd after tcpip_perform_acd returned: the check-and-assign step.
  function AfterPerform(s: Sys): Sys {
    var good := s.c.received && s.c.last.IpOk?;
    var conflict := s.c.received && !s.c.last.IpOk?;
    s.(c := s.c.(addr := if good then s.c.cfg else s.c.addr,
                 pending := s.c.pending && !s.c.received,
                 fault := s.c.fault || conflict,
                 activity := if conflict then 3 else 1),
       p := s.p.(queuedStops := s.p.queuedStops + if conflict then 1 else 0),
       h := if good then Then(s.h, Installed(s.c.cfg)) else s.h)
  }

  // tcpip_perform_acd: drop stale signals and earlier verdicts.
  function Forget(s: Sys): Sys {
    s.(c := s.c.(semMade := true, semGiven := false, received := false, last := IpOk, activity := 2),
       h := Then(s.h, Cleared))
  }

  // acd_start
  function StartEngine(s: Sys, ip: Ip4, rand: nat): Sys {
    s.(e := s.e.(st := ProbeWait, ip := ip, sent := 0, lastConflict := 0, ttw := rand % PROBE_WAIT_TICKS),
       h := Then(s.h, Started(ip)))
  }

  // tcpip_perform_acd: a client that is not registered is cleared and added, then probing starts.
  function RegisterAndStart(s: Sys, rand: nat): Sys {
    StartEngine(s.(e := if s.c.registered then s.e else IDLE_ENGINE.(listed := true),
                   c := s.c.(regSemMade := true, registered := true)),
                s.c.cfg, rand)
  }

  // tcpip_perform_acd up to its wait; the second result tells whether it reaches the wait.
  function Perform(s: Sys, alloc: Alloc, rand: nat): (r: (Sys, bool)) {
    if !s.c.semMade && alloc.NoSemaphore? then (Fail(s), false)
    else if alloc.NoContext? || (!s.c.regSemMade && alloc.NoRegistrationSemaphore?) then (Fail(Forget(s)), false)
    else (RegisterAndStart(Forget(s), rand), true)
  }

  // tcpip_try_pending_acd up to the semaphore wait.
  function TryPending(s: Sys, alloc: Alloc, rand: nat): (r: (Sys, bool)) {
    if !s.c.pending then (s, false)
    else if !s.p.hwValid then (s, false)
    else if !s.p.linkUp then (s.(p := s.p.(deferred := s.p.deferred + 1)), false)
    else
      var (s1, blocked) := Perform(s.(c := s.c.(activity := 2)), alloc, rand);
      if blocked then (s1, true) else (AfterPerform(s1), false)
  }

  // tcpip_try_pending_acd from a caller that does nothing more afterwards.
  function TryPendingThenReturn(s: Sys, alloc: Alloc, rand: nat): Sys {
    var (s1, blocked) := TryPending(s, alloc, rand);
    if blocked then s1.(p := s1.p.(otherWaiters := s1.p.otherWaiters + 1)) else s1
  }

  // The end of tcpip_perform_acd: the wait was answered or ran out.
  function EndWait(s: Sys, timedOut: bool): Sys {
    var answered := s.c.semGiven && !timedOut;
    var good := s.c.last.IpOk? && (answered || s.c.received);
    s.(c := s.c.(semGiven := s.c.semGiven && timedOut,
                 activity := if good then 0 else if !s.c.last.IpOk? then 3 else s.c.activity),
       p := s.p.(queuedStops := s.p.queuedStops + if !s.c.last.IpOk? && !answered then 1 else 0))
  }

  // configure_netif_from_tcpip in static mode with ACD selected
  function OnConfigure(s: Sys, ip: Ip4, alloc: Alloc, rand: nat): Sys {
    TryPendingThenReturn(s.(c := s.c.(configured := true, cfg := ip, pending := true, activity := 1)), alloc, rand)
  }

  // ethernet_event_handler, link connected; when it blocks, its own timeout is set on waking.
  function OnLinkEvent(s: Sys, alloc: Alloc, rand: nat): Sys {
    var (s1, blocked) := TryPending(s.(p := s.p.(hwValid := true)), alloc, rand);
    if blocked then s1.(p := s1.p.(linkWaiters := s1.p.linkWaiters + 1))
    else s1.(p := s1.p.(deferred := s1.p.deferred + 1))
  }

  // netif_set_link_up, netif_set_link_down
  function OnLinkFlag(s: Sys, up: bool): Sys {
    var s1 := if !up && s.p.linkUp && s.e.listed then StopEngine(s) else s;
    s1.(p := s1.p.(linkUp := up))
  }

  // tcpip_retry_acd_deferred
  function OnDeferred(s: Sys, alloc: Alloc, rand: nat): Sys {
    TryPendingThenReturn(s.(p := s.p.(deferred := CountDown(s.p.deferred))), alloc, rand)
  }

  // tcpip_acd_retry_timer_callback; queued tells whether its callback could be queued.
  function OnRetryTimer(s: Sys, queued: bool, alloc: Alloc, rand: nat): Sys {
    var s1 := Note(s.(c := s.c.(timerArmed := false)), RetryExpired);
    if !s1.c.retryTarget then s1
    else
      var s2 := s1.(c := s1.c.(pending := true));
      if queued then s2.(p := s2.p.(queuedRetries := s2.p.queuedRetries + 1))
      else TryPendingThenReturn(s2, alloc, rand)
  }

  // retry_callback
  function OnRetryCallback(s: Sys, alloc: Alloc, rand: nat): Sys {
    var s1 := s.(p := s.p.(queuedRetries := CountDown(s.p.queuedRetries)));
    if s1.c.retryTarget then TryPendingThenReturn(s1, alloc, rand) else s1
  }

  // tcpip_acd_stop_cb
  function OnStop(s: Sys): Sys {
    StopEngine(s.(p := s.p.(queuedStops := CountDown(s.p.queuedStops))))
  }

  function OnWake(s: Sys, fromLink: bool, timedOut: bool): Sys {
    var s1 := AfterPerform(EndWait(s, timedOut));
    if fromLink
    then s1.(p := s1.p.(linkWaiters := CountDown(s1.p.linkWaiters), deferred := s1.p.deferred + 1))
    else s1.(p := s1.p.(otherWaiters := CountDown(s1.p.otherWaiters)))
  }

  predicate Enabled(s: Sys, ev: Event) {
    match ev
    case Configure(ip, _, _) => !s.c.configured && ip != 0
    case DeferredTimeout(_, _) => s.p.deferred > 0
    case RetryTimer(_, _, _) => s.c.timerArmed
    case RetryCallback(_, _) => s.p.queuedRetries > 0
    case StopCallback => s.p.queuedStops > 0
    case Wake(fromLink, timedOut) =>
      (if fromLink then s.p.linkWaiters > 0 else s.p.otherWaiters > 0) && (s.c.semGiven || timedOut)
    case _ => true
  }

  function Step(s: Sys, ev: Event, maxAttempts: nat): Sys {
    match ev
    case Configure(ip, alloc, rand) => OnConfigure(s, ip, alloc, rand)
    case LinkEvent(alloc, rand) => OnLinkEvent(s, alloc, rand)
    case LinkLostEvent => s.(p := s.p.(queuedStops := s.p.queuedStops + 1))
    case LinkFlag(up) => OnLinkFlag(s, up)
    case DeferredTimeout(alloc, rand) => OnDeferred(s, alloc, rand)
    case RetryTimer(queued, alloc, rand) => OnRetryTimer(s, queued, alloc, rand)
    case RetryCallback(alloc, rand) => OnRetryCallback(s, alloc, rand)
    case StopCallback => OnStop(s)
    case Wake(fromLink, timedOut) => OnWake(s, fromLink, timedOut)
    case EngineTick => Tick(Note(s, Ticked), maxAttempts)
    case ArpHeard(sender, target, foreign) => HearArp(Note(s, Heard(sender, target, foreign)), sender, target, foreign, maxAttempts)
  }

  // A run is a sequence of events, each enabled when it happens.
  ghost predicate Legal(s: Sys, evs: seq<Event>, maxAttempts: nat)
    decreases |evs|
  {
    evs == [] || (Enabled(s, evs[0]) && Legal(Step(s, evs[0], maxAttempts), evs[1..], maxAttempts))
  }

  ghost function After(s: Sys, evs: seq<Event>, maxAttempts: nat): Sys
    decreases |evs|
  {
    if evs == [] then s else After(Step(s, evs[0], maxAttempts), evs[1..], maxAttempts)
  }

  ghost predicate Reachable(t: Sys, maxAttempts: nat) {
    exists evs :: Legal(BOOT, evs, maxAttempts) && After(BOOT, evs, maxAttempts) == t
  }

  lemma {:induction false} RunsCompose(s: Sys, evs: seq<Event>, more: seq<Event>, maxAttempts: nat)
    requires Legal(s, evs, maxAttempts) && Legal(After(s, evs, maxAttempts), more, maxAttempts)
    ensures Legal(s, evs + more, maxAttempts)
    ensures After(s, evs + more, maxAttempts) == After(After(s, evs, maxAttempts), more, maxAttempts)
    decreases |evs|
  {
    hide Step;
    if evs == [] {
      assert evs + more == more;
    } else {
      assert (evs + more)[1..] == evs[1..] + more;
      RunsCompose(Step(s, evs[0], maxAttempts), evs[1..], more, maxAttempts);
    }
  }
}
