/**
  The callbacks and tasks of static-address acquisition, in the form main/main.c and acd.c give them: static
  variables and struct fields that are updated in place. Every method is tied to the function of AcdModel that
  says what it does to the joint state.
*/
module AcdDevice {
  import opened AcdModel
  import AcdRetry
  import AcdSafety

  // A wait that ran out, case by case.
  lemma EndWaitTimedOut(s: Sys, timedOut: bool)
    requires timedOut || !s.c.semGiven
    ensures EndWait(s, timedOut)
            == if !s.c.last.IpOk? then
                 s.(c := s.c.(activity := 3), p := s.p.(queuedStops := s.p.queuedStops + 1))
               else if s.c.received then s.(c := s.c.(activity := 0))
               else s
  {
    EndWaitCoordinator(s, timedOut);
    EndWaitPlatform(s, timedOut);
    hide EndWait;
  }

  lemma EndWaitCoordinator(s: Sys, timedOut: bool)
    requires timedOut || !s.c.semGiven
    ensures EndWait(s, timedOut).c
            == if !s.c.last.IpOk? then s.c.(activity := 3) else if s.c.received then s.c.(activity := 0) else s.c
  {
    assert (s.c.semGiven && timedOut) == s.c.semGiven;
  }

  lemma EndWaitPlatform(s: Sys, timedOut: bool)
    requires timedOut || !s.c.semGiven
    ensures EndWait(s, timedOut).p == if !s.c.last.IpOk? then s.p.(queuedStops := s.p.queuedStops + 1) else s.p
    ensures EndWait(s, timedOut).e == s.e && EndWait(s, timedOut).h == s.h
  {
  }

  class Device {
    var acd: Engine           // s_static_ip_acd of main.c, a struct acd of acd.c
    var main: Coordinator     // the static variables of main.c and the interface's address
    var work: Platform        // the link, and what the platform still owes
    ghost var history: History
    const maxAttempts: nat    // CONFIG_OPENER_ACD_RETRY_MAX_ATTEMPTS

    ghost function View(): Sys
      reads this
    {
      Sys(acd, main, work, history)
    }

    constructor (maxAttempts: nat)
      ensures View() == BOOT && this.maxAttempts == maxAttempts
    {
      this.maxAttempts := maxAttempts;
      acd, main, work, history := IDLE_ENGINE, BOOT.c, BOOT.p, Nothing;
    }

    // tcpip_acd_start_retry
    method AcdStartRetry()
      modifies this
      ensures View() == StartRetry(old(View()))
    {
      main := main.(retryCount := main.retryCount + 1, retryTarget := true, addr := 0);
      history := Then(history, Removed);
      if main.registered {
        acd := acd.(st := Off);
        main := main.(registered := false);
      }
      main := main.(timerArmed := true);
    }

    // tcpip_acd_conflict_callback, case ACD_IP_OK
    method AddressConfirmed()
      modifies this
      ensures View() == Confirm(old(View()))
    {
      main := main.(fault := false, activity := 1, retryCount := 0, timerArmed := false);
      if main.pending {
        if main.cfg != 0 {
          history := Then(history, Installed(main.cfg));
          main := main.(addr := main.cfg, pending := false);
        }
      }
    }

    // tcpip_acd_conflict_callback, cases ACD_DECLINE and ACD_RESTART_CLIENT
    method AddressRefused()
      modifies this
      ensures View() == Refuse(old(View()), maxAttempts)
    {
      main := main.(fault := true, activity := 3);
      if maxAttempts == 0 || main.retryCount < maxAttempts {
        AcdStartRetry();
      }
    }

    // tcpip_acd_conflict_callback
    method ConflictCallback(v: Verdict)
      modifies this
      ensures View() == Callback(old(View()), v, maxAttempts)
    {
      main := main.(last := v, received := true);
      history := Then(history, Told(v));
      match v {
        case IpOk => AddressConfirmed();
        case _ => AddressRefused();
      }
      if main.semMade {
        main := main.(semGiven := true);
      }
    }

    // acd_restart
    method AcdRestart()
      modifies this
      ensures View() == Restart(old(View()), maxAttempts)
    {
      hide Callback;
      acd := acd.(numConflicts := (acd.numConflicts + 1) % 256);
      ConflictCallback(Decline);
      if acd.numConflicts >= MAX_CONFLICTS {
        acd := acd.(st := RateLimit, ttw := RATE_LIMIT_TICKS);
      } else {
        acd := acd.(st := Off);
        ConflictCallback(RestartClient);
      }
    }

    // acd_arp_reply with acd_handle_arp_conflict
    method ArpReply(sender: Ip4, target: Ip4, foreign: bool)
      modifies this
      ensures View() == HearArp(old(View()), sender, target, foreign, maxAttempts)
    {
      hide Restart;
      if acd.listed {
        match acd.st {
          case ProbeWait | Probing | AnnounceWait =>
            if (sender == acd.ip && foreign) || (sender == 0 && target == acd.ip && foreign) {
              AcdRestart();
            }
          case Announcing | Ongoing =>
            if sender == acd.ip && foreign {
              if acd.lastConflict > 0 {
                AcdRestart();
              } else {
                acd := acd.(lastConflict := DEFEND_INTERVAL_TICKS);
                history := Then(history, Defended);
              }
            }
          case Off | RateLimit =>
        }
      }
    }

    // acd_tmr
    method AcdTmr()
      modifies this
      ensures View() == Tick(old(View()), maxAttempts)
    {
      if acd.listed {
        AcdTmrCounters();
        AcdTmrState();
      }
    }

    // acd_tmr, the two counters every tick decrements
    method AcdTmrCounters()
      modifies `acd
      ensures acd == old(acd).(lastConflict := CountDown(old(acd).lastConflict), ttw := CountDown(old(acd).ttw))
    {
      if acd.lastConflict > 0 {
        acd := acd.(lastConflict := acd.lastConflict - 1);
      }
      if acd.ttw > 0 {
        acd := acd.(ttw := acd.ttw - 1);
      }
    }

    // acd_tmr, the switch over the engine's state
    method AcdTmrState()
      modifies this
      ensures View() == TickBody(old(View()), maxAttempts)
    {
      match acd.st {
        case ProbeWait | Probing =>
          if acd.ttw == 0 {
            history := Then(history, ProbeSent(acd.ip));
            acd := acd.(st := Probing, sent := acd.sent + 1);
            if acd.sent >= PROBE_NUM {
              acd := acd.(st := AnnounceWait, sent := 0, ttw := ANNOUNCE_WAIT_TICKS);
            } else {
              acd := acd.(ttw := PROBE_INTERVAL_TICKS);
            }
          }
        case AnnounceWait | Announcing =>
          if acd.ttw == 0 {
            if acd.sent == 0 {
              acd := acd.(st := Announcing, numConflicts := 0);
            }
            history := Then(history, AnnounceSent(acd.ip));
            acd := acd.(ttw := ANNOUNCE_INTERVAL_TICKS, sent := acd.sent + 1);
            if acd.sent >= ANNOUNCE_NUM {
              acd := acd.(st := Ongoing, sent := 0, ttw := PERIODIC_DEFEND_TICKS);
              ConflictCallback(IpOk);
            }
          }
        case Ongoing =>
          if PERIODIC_DEFEND_TICKS > 0 && acd.ttw == 0 {
            history := Then(history, PeriodicProbe(acd.ip));
            acd := acd.(ttw := PERIODIC_DEFEND_TICKS);
          }
        case RateLimit =>
          if acd.ttw == 0 {
            acd := acd.(st := Off);
            ConflictCallback(RestartClient);
          }
        case Off =>
      }
    }

    // tcpip_perform_acd, registration and acd_start
    method AcdRegisterAndStart(rand: nat)
      modifies this
      ensures View() == RegisterAndStart(old(View()), rand)
    {
      if !main.registered {
        // netif->acd_list := NULL, memset, acd_add
        acd := IDLE_ENGINE.(listed := true);
      }
      main := main.(regSemMade := true, registered := true);
      acd := acd.(sent := 0, lastConflict := 0, ip := main.cfg, st := ProbeWait, ttw := rand % PROBE_WAIT_TICKS);
      history := Then(history, Started(main.cfg));
    }

    // tcpip_perform_acd up to its wait; false when it returns without waiting
    method PerformAcd(alloc: Alloc, rand: nat) returns (blocked: bool)
      modifies this
      ensures View() == Perform(old(View()), alloc, rand).0
      ensures blocked == Perform(old(View()), alloc, rand).1
    {
      if !main.semMade && alloc.NoSemaphore? {
        main := main.(fault := true, activity := 3);
        return false;
      }
      main := main.(semMade := true, semGiven := false, received := false, last := IpOk, activity := 2);
      history := Then(history, Cleared);
      if alloc.NoContext? || (!main.regSemMade && alloc.NoRegistrationSemaphore?) {
        main := main.(fault := true, activity := 3);
        return false;
      }
      AcdRegisterAndStart(rand);
      return true;
    }

    // tcpip_perform_acd from its wait on
    method PerformAcdAfterWait(timedOut: bool) returns (safe: bool)
      modifies this
      ensures View() == EndWait(old(View()), timedOut)
      ensures safe == old(main.last).IpOk?
    {
      if main.semGiven && !timedOut {
        safe := PerformAcdAnswered();
      } else {
        safe := PerformAcdTimedOut(timedOut);
      }
    }

    // The wait took the semaphore.
    method PerformAcdAnswered() returns (safe: bool)
      requires main.semGiven
      modifies `main
      ensures View() == EndWait(old(View()), false)
      ensures safe == old(main.last).IpOk?
    {
      assert work.(queuedStops := work.queuedStops + 0) == work;
      if main.last.IpOk? {
        main := main.(semGiven := false, activity := 0);
        return true;
      }
      main := main.(semGiven := false, activity := 3);
      return false;
    }

    // The wait ran out.
    method PerformAcdTimedOut(ghost timedOut: bool) returns (safe: bool)
      requires timedOut || !main.semGiven
      modifies `main, `work
      ensures View() == EndWait(old(View()), timedOut)
      ensures safe == old(main.last).IpOk?
    {
      EndWaitTimedOut(View(), timedOut);
      hide EndWait;
      if main.received && main.last.IpOk? {
        main := main.(activity := 0);
        return true;
      }
      if main.last.RestartClient? || main.last.Decline? {
        main := main.(activity := 3);
        work := work.(queuedStops := work.queuedStops + 1);
        return false;
      }
      return true;
    }

    // tcpip_try_pending_acd after tcpip_perform_acd returned
    method CheckAndAssign()
      modifies this
      ensures View() == AfterPerform(old(View()))
    {
      if main.received && (main.last.Decline? || main.last.RestartClient?) {
        main := main.(fault := true, activity := 3, pending := false);
        work := work.(queuedStops := work.queuedStops + 1);
        return;
      }
      if main.received && main.last.IpOk? {
        history := Then(history, Installed(main.cfg));
        main := main.(addr := main.cfg, pending := false);
      }
      main := main.(activity := 1);
    }

    // tcpip_try_pending_acd up to the wait inside tcpip_perform_acd
    method TryPendingAcd(alloc: Alloc, rand: nat) returns (blocked: bool)
      modifies this
      ensures View() == TryPending(old(View()), alloc, rand).0
      ensures blocked == TryPending(old(View()), alloc, rand).1
    {
      hide Perform, AfterPerform;
      if !main.pending {
        return false;
      }
      if !work.hwValid {
        return false;
      }
      if !work.linkUp {
        work := work.(deferred := work.deferred + 1);
        return false;
      }
      main := main.(activity := 2);
      blocked := PerformAcd(alloc, rand);
      if !blocked {
        CheckAndAssign();
      }
    }

    method TryPendingAcdFromTask(alloc: Alloc, rand: nat)
      modifies this
      ensures View() == TryPendingThenReturn(old(View()), alloc, rand)
    {
      var blocked := TryPendingAcd(alloc, rand);
      if blocked {
        work := work.(otherWaiters := work.otherWaiters + 1);
      }
    }

    // configure_netif_from_tcpip, static mode with ACD selected
    method ConfigureNetif(ip: Ip4, alloc: Alloc, rand: nat)
      modifies this
      ensures View() == OnConfigure(old(View()), ip, alloc, rand)
    {
      hide TryPending;
      main := main.(configured := true, cfg := ip, pending := true, activity := 1);
      TryPendingAcdFromTask(alloc, rand);
    }

    // ethernet_event_handler, ETHERNET_EVENT_CONNECTED
    method LinkConnected(alloc: Alloc, rand: nat)
      modifies this
      ensures View() == OnLinkEvent(old(View()), alloc, rand)
    {
      hide TryPending;
      work := work.(hwValid := true);
      var blocked := TryPendingAcd(alloc, rand);
      if blocked {
        work := work.(linkWaiters := work.linkWaiters + 1);
      } else {
        work := work.(deferred := work.deferred + 1);
      }
    }

    // netif_set_link_up and netif_set_link_down
    method SetLink(up: bool)
      modifies `acd, `work
      ensures View() == OnLinkFlag(old(View()), up)
    {
      if !up && work.linkUp && acd.listed {
        acd := acd.(st := Off);
      }
      work := work.(linkUp := up);
    }

    // tcpip_retry_acd_deferred
    method RetryDeferred(alloc: Alloc, rand: nat)
      requires work.deferred > 0
      modifies this
      ensures View() == OnDeferred(old(View()), alloc, rand)
    {
      work := work.(deferred := work.deferred - 1);
      if main.pending {
        TryPendingAcdFromTask(alloc, rand);
      }
    }

    // tcpip_acd_retry_timer_callback
    method RetryTimerExpired(queued: bool, alloc: Alloc, rand: nat)
      modifies this
      ensures View() == OnRetryTimer(old(View()), queued, alloc, rand)
    {
      hide TryPendingThenReturn;
      main := main.(timerArmed := false);
      history := Then(history, RetryExpired);
      if main.retryTarget {
        main := main.(pending := true);
        if queued {
          work := work.(queuedRetries := work.queuedRetries + 1);
        } else {
          TryPendingAcdFromTask(alloc, rand);
        }
      }
    }

    // retry_callback
    method RetryNow(alloc: Alloc, rand: nat)
      requires work.queuedRetries > 0
      modifies this
      ensures View() == OnRetryCallback(old(View()), alloc, rand)
    {
      hide TryPendingThenReturn;
      work := work.(queuedRetries := work.queuedRetries - 1);
      if main.retryTarget {
        TryPendingAcdFromTask(alloc, rand);
      }
    }

    // A task that waited in tcpip_perform_acd goes on.
    method WakeUp(fromLink: bool, timedOut: bool)
      requires if fromLink then work.linkWaiters > 0 else work.otherWaiters > 0
      modifies this
      ensures View() == OnWake(old(View()), fromLink, timedOut)
    {
      var _ := PerformAcdAfterWait(timedOut);
      CheckAndAssign();
      if fromLink {
        work := work.(linkWaiters := work.linkWaiters - 1, deferred := work.deferred + 1);
      } else {
        work := work.(otherWaiters := work.otherWaiters - 1);
      }
    }

    // The platform delivers one event.
    method Handle(ev: Event)
      requires Enabled(View(), ev)
      modifies this
      ensures View() == Step(old(View()), ev, maxAttempts)
    {
      hide OnConfigure, OnLinkEvent, OnLinkFlag, OnDeferred, OnRetryTimer, OnRetryCallback, OnWake, Tick, HearArp;
      match ev
      case Configure(ip, alloc, rand) => ConfigureNetif(ip, alloc, rand);
      case LinkEvent(alloc, rand) => LinkConnected(alloc, rand);
      case LinkLostEvent => work := work.(queuedStops := work.queuedStops + 1);
      case LinkFlag(up) => SetLink(up);
      case DeferredTimeout(alloc, rand) => RetryDeferred(alloc, rand);
      case RetryTimer(queued, alloc, rand) => RetryTimerExpired(queued, alloc, rand);
      case RetryCallback(alloc, rand) => RetryNow(alloc, rand);
      case StopCallback =>
        work := work.(queuedStops := work.queuedStops - 1);
        acd := acd.(st := Off);
      case Wake(fromLink, timedOut) => WakeUp(fromLink, timedOut);
      case EngineTick =>
        history := Then(history, Ticked);
        AcdTmr();
      case ArpHeard(sender, target, foreign) =>
        history := Then(history, Heard(sender, target, foreign));
        ArpReply(sender, target, foreign);
    }
  }

  // The device from boot through any events the platform can deliver: every address it installed was vetted, the
  // interface holds what was installed last, and its retries are bounded.
  method HandleAll(maxAttempts: nat, events: seq<Event>) returns (device: Device)
    requires Legal(BOOT, events, maxAttempts)
    ensures fresh(device) && device.View() == After(BOOT, events, maxAttempts)
    ensures AcdSafety.InstallsJustified(device.history)
    ensures device.main.addr == AcdSafety.AddressAfter(device.history)
    ensures device.main.retryCount > 0 ==> device.main.addr == 0 && device.main.fault
    ensures maxAttempts > 0 ==>
              && device.main.retryCount <= maxAttempts
              && AcdRetry.ExpiriesSinceOk(device.history) <= (maxAttempts + 1) / 2
  {
    hide Enabled, Step, AcdSafety.InstallsJustified, AcdSafety.AddressAfter;
    device := new Device(maxAttempts);
    assert events[0..] == events;
    for i := 0 to |events|
      invariant fresh(device) && device.maxAttempts == maxAttempts
      invariant Legal(device.View(), events[i..], maxAttempts)
      invariant After(device.View(), events[i..], maxAttempts) == After(BOOT, events, maxAttempts)
    {
      assert events[i..][0] == events[i] && events[i..][1..] == events[i + 1..];
      device.Handle(events[i]);
    }
    AcdSafety.EveryInstalledAddressWasVetted(device.View(), maxAttempts);
    AcdSafety.RetryingMeansNoAddress(device.View(), maxAttempts);
    if maxAttempts > 0 {
      AcdRetry.RetriesAreBounded(device.View(), maxAttempts);
    }
  }
}
