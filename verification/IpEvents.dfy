/**
  Reporting of IPv4 addresses by esp_netif_lwip.c and esp_netif_handlers.c for one interface that is not a PPP
  interface and stays started: GOT_IP and LOST_IP events, the stored addresses and the lost timer.
*/
module IpEvents {

  // esp_netif_ip_info_t; an address of 0 is no address.
  datatype Info = Info(ip: bv32, mask: bv32, gw: bv32)

  const NO_INFO := Info(0, 0, 0)

  datatype Dhcp = DhcpInit | DhcpStarted | DhcpStopped

  // What is told to the application: an address, or that the lost timer found none (the event is optional).
  datatype Report = GotIp(info: Info, changed: bool) | Lost(posted: bool)

  // flags and lost_ip_event, fixed when the interface is created
  datatype Config = Config(dhcpClient: bool, dhcpServer: bool, ipModified: bool, lostEvent: bool)

  datatype Netif = Netif(
    addr: Info,          // what lwIP uses
    up: bool,            // netif_is_up
    info: Info,          // ip_info
    oldInfo: Info,           // ip_info_old
    timerRunning: bool,  // timer_running
    pending: nat,        // lost timeouts that are set
    dhcpc: Dhcp,         // dhcpc_status
    dhcps: Dhcp,         // dhcps_status
    reports: seq<Report>)

  datatype Error = Ok | InvalidState | DhcpNotStopped | AlreadyStarted | AlreadyStopped | StartFailed

  // esp_netif_init_configuration
  function Created(info: Info): Netif {
    Netif(NO_INFO, false, info, info, false, 0, DhcpInit, DhcpInit, [])
  }

  // ---- What each operation does -------------------------------------------

  // esp_netif_start_ip_lost_timer
  function StartLostTimer(n: Netif): Netif {
    if n.timerRunning then n else n.(timerRunning := true, pending := n.pending + 1)
  }

  // esp_netif_internal_dhcpc_cb
  function Callback(c: Config, n: Netif): Netif {
    if n.addr.ip != 0 then
      if n.addr == n.info then n
      else n.(info := n.addr, oldInfo := n.addr, reports := n.reports + [GotIp(n.addr, n.addr != n.oldInfo)])
    else if n.info.ip == 0 then n
    else StartLostTimer(n).(info := if c.dhcpClient && n.dhcpc.DhcpStarted? then NO_INFO else n.info)
  }

  // netif_set_addr: lwIP calls back, from inside, when an address, mask or gateway changed.
  function SetAddr(c: Config, n: Netif, a: Info): Netif {
    if a == n.addr then n else Callback(c, n.(addr := a))
  }

  // esp_netif_ip_lost_timer, when a timeout that was set runs out
  function LostTimeout(c: Config, n: Netif): Netif
    requires n.pending > 0
  {
    if n.addr.ip != 0 then n.(pending := n.pending - 1, timerRunning := false)
    else n.(
           pending := n.pending - 1,
           timerRunning := false,
           oldInfo := NO_INFO,
           info := if c.dhcpClient && n.dhcpc.DhcpStarted? then NO_INFO else n.info,
           reports := n.reports + [Lost(c.lostEvent)])
  }

  // The guards of esp_netif_set_ip_info_api
  function SetIpInfoError(c: Config, n: Netif): Error {
    if (if c.dhcpServer then !n.dhcps.DhcpStopped? else c.dhcpClient && !n.dhcpc.DhcpStopped?) then DhcpNotStopped
    else Ok
  }

  // esp_netif_set_ip_info_api
  function SetIpInfo(c: Config, n: Netif, a: Info): Netif {
    if SetIpInfoError(c, n) != Ok then n
    else if !n.up then n.(info := a)
    else
      var m := SetAddr(c, n.(info := a), a);
      if !c.ipModified || a.ip == 0 then m
      else m.(oldInfo := a, reports := m.reports + [GotIp(a, a != m.oldInfo)])
  }

  // dhcp_stop: lwIP removes the address when it is one its DHCP client supplied.
  function DhcpOff(c: Config, n: Netif, supplied: bool): Netif {
    if supplied then SetAddr(c, n, NO_INFO) else n
  }

  // esp_netif_dhcpc_stop_api
  function DhcpcStop(c: Config, n: Netif, supplied: bool): Netif {
    if n.dhcpc.DhcpStopped? then n
    else if n.dhcpc.DhcpInit? then n.(dhcpc := DhcpStopped)
    else StartLostTimer(DhcpOff(c, n, supplied).(info := NO_INFO)).(dhcpc := DhcpStopped)
  }

  // esp_netif_dhcpc_start_api; starts says whether dhcp_start succeeds. The address is cleared without a callback.
  function DhcpcStart(c: Config, n: Netif, starts: bool): Netif {
    if n.dhcpc.DhcpStarted? then n
    else if !n.up then n.(info := NO_INFO, dhcpc := DhcpInit)
    else StartLostTimer(n).(
           info := NO_INFO, addr := NO_INFO, dhcpc := if starts then DhcpStarted else n.dhcpc)
  }

  // esp_netif_up_api
  function Up(c: Config, n: Netif): Netif {
    SetAddr(c, n, n.info).(up := true)
  }

  // esp_netif_is_valid_static_ip
  predicate ValidStatic(a: Info) {
    a.ip != 0 && a.mask != 0
  }

  // esp_netif_action_connected
  function Connected(c: Config, n: Netif, starts: bool): Netif {
    var m := Up(c, n);
    if !c.dhcpClient then m
    else
      match m.dhcpc
      case DhcpInit => DhcpcStart(c, m, starts)
      case DhcpStarted => m
      case DhcpStopped =>
        if !ValidStatic(m.info) then m
        else m.(oldInfo := m.info, reports := m.reports + [GotIp(m.info, m.info != m.oldInfo)])
  }

  // esp_netif_down_api
  function Down(c: Config, n: Netif, supplied: bool): Netif {
    var m := if c.dhcpClient && n.dhcpc.DhcpStarted?
             then DhcpOff(c, n, supplied).(dhcpc := DhcpInit, info := NO_INFO) else n;
    var off := SetAddr(c, m, NO_INFO).(up := false);
    if c.dhcpClient then StartLostTimer(off) else off
  }

  // ---- Runs ---------------------------------------------------------------

  datatype Event =
    | LinkUp(starts: bool)
    | LinkDown(supplied: bool)
    | Configure(info: Info)
    | StartDhcp(starts: bool)
    | StopDhcp(supplied: bool)
    | Lease(info: Info)     // lwIP's DHCP client sets or clears the address
    | Timeout

  predicate Enabled(n: Netif, ev: Event) {
    match ev
    case Lease(_) => n.up && n.dhcpc.DhcpStarted?
    case Timeout => n.pending > 0
    case _ => true
  }

  function Step(c: Config, n: Netif, ev: Event): Netif
    requires Enabled(n, ev)
  {
    match ev
    case LinkUp(starts) => Connected(c, n, starts)
    case LinkDown(supplied) => Down(c, n, supplied)
    case Configure(info) => SetIpInfo(c, n, info)
    case StartDhcp(starts) => DhcpcStart(c, n, starts)
    case StopDhcp(supplied) => DhcpcStop(c, n, supplied)
    case Lease(info) => SetAddr(c, n, info)
    case Timeout => LostTimeout(c, n)
  }

  // Events that cannot happen in a state are passed over.
  function Run(c: Config, n: Netif, events: seq<Event>): Netif
    decreases |events|
  {
    if events == [] then n
    else if !Enabled(n, events[0]) then Run(c, n, events[1..])
    else Run(c, Step(c, n, events[0]), events[1..])
  }

  // ---- What the reports say -----------------------------------------------

  // What the application was told last: at first the configured address, nothing after a loss.
  function Told(first: Info, reports: seq<Report>): Info {
    if reports == [] then first
    else match reports[|reports| - 1]
         case GotIp(info, _) => info
         case Lost(_) => NO_INFO
  }

  // Every report calls its address changed exactly when it is not the one told before it.
  ghost predicate Truthful(first: Info, reports: seq<Report>) {
    forall i :: 0 <= i < |reports| && reports[i].GotIp? ==>
      reports[i].changed == (reports[i].info != Told(first, reports[..i]))
  }

  ghost predicate Inv(first: Info, n: Netif) {
    && n.oldInfo == Told(first, n.reports)
    && Truthful(first, n.reports)
    && n.pending == if n.timerRunning then 1 else 0
  }

  // One more report keeps the record right.
  lemma ReportInv(first: Info, reports: seq<Report>, r: Report)
    requires Truthful(first, reports)
    requires r.GotIp? ==> r.changed == (r.info != Told(first, reports))
    ensures Truthful(first, reports + [r])
    ensures Told(first, reports + [r]) == if r.GotIp? then r.info else NO_INFO
  {
    var all := reports + [r];
    forall i | 0 <= i < |all| && all[i].GotIp?
      ensures all[i].changed == (all[i].info != Told(first, all[..i]))
    {
      assert all[..i] == reports[..i];
      assert reports[..|reports|] == reports;
    }
  }

  lemma CallbackInv(c: Config, first: Info, n: Netif)
    requires Inv(first, n)
    ensures Inv(first, Callback(c, n))
  {
    hide Truthful, Told;
    ReportInv(first, n.reports, GotIp(n.addr, n.addr != n.oldInfo));
  }

  lemma SetAddrInv(c: Config, first: Info, n: Netif, a: Info)
    requires Inv(first, n)
    ensures Inv(first, SetAddr(c, n, a))
  {
    hide Truthful, Told, Callback;
    CallbackInv(c, first, n.(addr := a));
  }

  lemma ConfigureInv(c: Config, first: Info, n: Netif, a: Info)
    requires Inv(first, n)
    ensures Inv(first, SetIpInfo(c, n, a))
  {
    hide Truthful, Told, SetAddr;
    var m := SetAddr(c, n.(info := a), a);
    SetAddrInv(c, first, n.(info := a), a);
    ReportInv(first, m.reports, GotIp(a, a != m.oldInfo));
  }

  lemma DhcpOffInv(c: Config, first: Info, n: Netif, supplied: bool)
    requires Inv(first, n)
    ensures Inv(first, DhcpOff(c, n, supplied))
  {
    hide Truthful, Told, SetAddr;
    SetAddrInv(c, first, n, NO_INFO);
  }

  lemma DownInv(c: Config, first: Info, n: Netif, supplied: bool)
    requires Inv(first, n)
    ensures Inv(first, Down(c, n, supplied))
  {
    hide Truthful, Told, SetAddr, DhcpOff;
    DhcpOffInv(c, first, n, supplied);
    var m := if c.dhcpClient && n.dhcpc.DhcpStarted?
             then DhcpOff(c, n, supplied).(dhcpc := DhcpInit, info := NO_INFO) else n;
    SetAddrInv(c, first, m, NO_INFO);
  }

  lemma ConnectedInv(c: Config, first: Info, n: Netif, starts: bool)
    requires Inv(first, n)
    ensures Inv(first, Connected(c, n, starts))
  {
    hide Truthful, Told, SetAddr;
    SetAddrInv(c, first, n, n.info);
    var m := Up(c, n);
    ReportInv(first, m.reports, GotIp(m.info, m.info != m.oldInfo));
  }

  lemma StepInv(c: Config, first: Info, n: Netif, ev: Event)
    requires Inv(first, n) && Enabled(n, ev)
    ensures Inv(first, Step(c, n, ev))
  {
    hide Truthful, Told, SetAddr, Connected, Down, SetIpInfo, DhcpOff;
    match ev
    case LinkUp(starts) => ConnectedInv(c, first, n, starts);
    case LinkDown(supplied) => DownInv(c, first, n, supplied);
    case Configure(info) => ConfigureInv(c, first, n, info);
    case StartDhcp(_) =>
    case StopDhcp(supplied) => DhcpOffInv(c, first, n, supplied);
    case Lease(info) => SetAddrInv(c, first, n, info);
    case Timeout => ReportInv(first, n.reports, Lost(c.lostEvent));
  }

  lemma {:induction false} RunInv(c: Config, first: Info, n: Netif, events: seq<Event>)
    requires Inv(first, n)
    ensures Inv(first, Run(c, n, events))
    decreases |events|
  {
    if events != [] {
      if Enabled(n, events[0]) {
        StepInv(c, first, n, events[0]);
        RunInv(c, first, Step(c, n, events[0]), events[1..]);
      } else {
        RunInv(c, first, n, events[1..]);
      }
    }
  }

  // After every run: ip_info_old is what the application was told last, a report says "changed" exactly when its
  // address differs from the one told before it, and at most one lost timeout is set, none unless timer_running.
  lemma ReportsAreTruthful(c: Config, first: Info, events: seq<Event>)
    ensures var n := Run(c, Created(first), events);
            && n.oldInfo == Told(first, n.reports)
            && Truthful(first, n.reports)
            && n.pending == if n.timerRunning then 1 else 0
  {
    RunInv(c, first, Created(first), events);
  }

  // Setting an address reports it once, in the callback, when it is new to esp_netif; clearing it reports nothing.
  lemma SetAddrReports(c: Config, n: Netif, a: Info)
    ensures SetAddr(c, n, a).reports ==
            n.reports + if a != n.addr && a.ip != 0 && a != n.info then [GotIp(a, a != n.oldInfo)] else []
    ensures SetAddr(c, n, a).addr == a
    ensures a.ip != 0 && a != n.addr ==> SetAddr(c, n, a).info == a
    ensures a.ip == 0 || a == n.addr || a == n.info ==> SetAddr(c, n, a).oldInfo == n.oldInfo
  {
  }

  // m has the reports of n, and GOT_IP reports after them.
  ghost predicate MoreGotIp(n: Netif, m: Netif) {
    && n.reports <= m.reports
    && forall i :: |n.reports| <= i < |m.reports| ==> m.reports[i].GotIp?
  }

  lemma ConnectedMoreGotIp(c: Config, n: Netif, starts: bool)
    ensures MoreGotIp(n, Connected(c, n, starts))
  {
    hide SetAddr;
    SetAddrReports(c, n, n.info);
  }

  lemma DownReportsNothing(c: Config, n: Netif, supplied: bool)
    ensures Down(c, n, supplied).reports == n.reports
  {
    hide SetAddr;
    SetAddrReports(c, n, NO_INFO);
    var m := if c.dhcpClient && n.dhcpc.DhcpStarted?
             then DhcpOff(c, n, supplied).(dhcpc := DhcpInit, info := NO_INFO) else n;
    SetAddrReports(c, m, NO_INFO);
  }

  lemma ConfigureMoreGotIp(c: Config, n: Netif, a: Info)
    ensures MoreGotIp(n, SetIpInfo(c, n, a))
  {
    hide SetAddr;
    SetAddrReports(c, n.(info := a), a);
  }

  // A loss is reported by every timeout that finds no address, and by nothing else.
  lemma LossOnlyWithoutAddress(c: Config, n: Netif, ev: Event)
    requires Enabled(n, ev)
    ensures if ev.Timeout? && n.addr.ip == 0 then Step(c, n, ev).reports == n.reports + [Lost(c.lostEvent)]
            else MoreGotIp(n, Step(c, n, ev))
  {
    hide SetAddr, Connected, Down, SetIpInfo;
    match ev
    case LinkUp(starts) => ConnectedMoreGotIp(c, n, starts);
    case LinkDown(supplied) => DownReportsNothing(c, n, supplied);
    case Configure(info) => ConfigureMoreGotIp(c, n, info);
    case StartDhcp(_) =>
    case StopDhcp(_) => SetAddrReports(c, n, NO_INFO);
    case Lease(info) => SetAddrReports(c, n, info);
    case Timeout =>
  }

  // ---- A lost address is reported lost ---------------------------------------

  // The event starts the lost timer when it takes the address away. Clearing a static address does not, nor does a
  // link-up or the end of a lease for which nothing is stored.
  predicate StartsTimer(c: Config, n: Netif, ev: Event) {
    match ev
    case LinkUp(_) => c.dhcpClient && n.dhcpc.DhcpInit?
    case LinkDown(_) => c.dhcpClient || n.info.ip != 0
    case Configure(_) => false
    case StartDhcp(_) => true
    case StopDhcp(_) => true
    case Lease(_) => n.info.ip != 0
    case Timeout => false
  }

  // The event leaves no address in use where there was one.
  predicate TakesAddress(c: Config, n: Netif, ev: Event)
    requires Enabled(n, ev)
  {
    n.addr.ip != 0 && Step(c, n, ev).addr.ip == 0
  }

  // After an event that takes the address away a lost timeout is set if and only if one was set already or the event
  // starts it.
  lemma LossSetsTimerIff(c: Config, first: Info, n: Netif, ev: Event)
    requires Inv(first, n) && Enabled(n, ev) && TakesAddress(c, n, ev)
    ensures Step(c, n, ev).pending == if n.timerRunning || StartsTimer(c, n, ev) then 1 else 0
  {
    StepInv(c, first, n, ev);
    LossTimer(c, n, ev);
  }

  lemma SetAddrTimer(c: Config, n: Netif, a: Info)
    ensures var m := SetAddr(c, n, a);
            && m.addr == a && m.dhcpc == n.dhcpc && m.up == n.up
            && m.timerRunning == (n.timerRunning || (a != n.addr && a.ip == 0 && n.info.ip != 0))
            && (a.ip == 0 ==> m.info == n.info || (m.info == NO_INFO && c.dhcpClient && n.dhcpc.DhcpStarted?))
  {
  }

  lemma LossTimer(c: Config, n: Netif, ev: Event)
    requires Enabled(n, ev) && TakesAddress(c, n, ev)
    ensures Step(c, n, ev).timerRunning == (n.timerRunning || StartsTimer(c, n, ev))
  {
    hide SetAddr;
    SetAddrTimer(c, n, n.info);
    SetAddrTimer(c, n, NO_INFO);
    match ev
    case LinkDown(supplied) => DownTimer(c, n, supplied);
    case Configure(info) => SetAddrTimer(c, n.(info := info), info);
    case Lease(info) => SetAddrTimer(c, n, info);
    case _ =>
  }

  lemma DownTimer(c: Config, n: Netif, supplied: bool)
    requires n.addr.ip != 0
    ensures Down(c, n, supplied).timerRunning == (n.timerRunning || c.dhcpClient || n.info.ip != 0)
  {
    hide SetAddr;
    SetAddrTimer(c, n, NO_INFO);
    if !(c.dhcpClient && n.dhcpc.DhcpStarted?) {
      SetAddrTimer(c, n, NO_INFO);
    }
  }

  // No event but its own expiry stops the timer.
  lemma TimerStaysSet(c: Config, first: Info, n: Netif, ev: Event)
    requires Inv(first, n) && Enabled(n, ev) && n.timerRunning && !ev.Timeout?
    ensures Step(c, n, ev).timerRunning
  {
    hide SetAddr, Inv;
    SetAddrTimer(c, n, n.info);
    SetAddrTimer(c, n, NO_INFO);
    match ev
    case LinkDown(supplied) => SetAddrTimer(c, DhcpOff(c, n, supplied).(dhcpc := DhcpInit, info := NO_INFO), NO_INFO);
    case Configure(info) => SetAddrTimer(c, n.(info := info), info);
    case Lease(info) => SetAddrTimer(c, n, info);
    case _ =>
  }

  lemma {:induction false} TimerStaysSetInRuns(c: Config, first: Info, n: Netif, events: seq<Event>)
    requires Inv(first, n) && n.timerRunning && forall ev :: ev in events ==> !ev.Timeout?
    ensures Run(c, n, events).timerRunning
    decreases |events|
  {
    hide Inv, Step, Enabled;
    if events != [] {
      assert events[0] in events;
      if Enabled(n, events[0]) {
        TimerStaysSet(c, first, n, events[0]);
        StepInv(c, first, n, events[0]);
        TimerStaysSetInRuns(c, first, Step(c, n, events[0]), events[1..]);
      } else {
        TimerStaysSetInRuns(c, first, n, events[1..]);
      }
    }
  }

  // After every run: an event takes the address away and starts the timer, and when the timeout comes there is still,
  // or again, no address. Then the loss is reported and the old address forgotten, so that the same address is new when
  // it comes back.
  lemma LossIsReported(c: Config, first: Info, before: seq<Event>, ev: Event, after: seq<Event>)
    requires var n := Run(c, Created(first), before);
             && Enabled(n, ev) && TakesAddress(c, n, ev) && (n.timerRunning || StartsTimer(c, n, ev))
             && Run(c, Step(c, n, ev), after).addr.ip == 0
    requires forall e :: e in after ==> !e.Timeout?
    ensures var m := Run(c, Step(c, Run(c, Created(first), before), ev), after);
            && Enabled(m, Timeout)
            && Step(c, m, Timeout).reports == m.reports + [Lost(c.lostEvent)]
            && Step(c, m, Timeout).oldInfo == NO_INFO && Step(c, m, Timeout).pending == 0
  {
    hide TakesAddress, StartsTimer;
    var n := Run(c, Created(first), before);
    RunInv(c, first, Created(first), before);
    LossSetsTimerIff(c, first, n, ev);
    StepInv(c, first, n, ev);
    RunInv(c, first, Step(c, n, ev), after);
    TimerStaysSetInRuns(c, first, Step(c, n, ev), after);
  }

  // A running DHCP client has nothing stored after a loss, so a lease is reported, as a change, be it of the old address.
  lemma LeaseAfterLossIsReported(c: Config, n: Netif, a: Info)
    requires n.pending > 0 && n.addr.ip == 0 && a.ip != 0 && c.dhcpClient && n.dhcpc.DhcpStarted?
    ensures var m := LostTimeout(c, n);
            m.info == NO_INFO && SetAddr(c, m, a).reports == m.reports + [GotIp(a, true)]
  {
  }

  // ---- What the operations leave ---------------------------------------------

  // A DHCP service that keeps static configuration out: the server of an interface that has one, else a client.
  predicate ServiceRuns(c: Config, n: Netif) {
    if c.dhcpServer then n.dhcps != DhcpStopped else c.dhcpClient && n.dhcpc != DhcpStopped
  }

  // A static configuration changes nothing while such a service runs; otherwise it is stored, and on an interface that is
  // up also in use.
  lemma ConfigureIff(c: Config, n: Netif, a: Info)
    ensures var m := SetIpInfo(c, n, a);
            if ServiceRuns(c, n) then m == n
            else m.info == a && m.addr == (if n.up then a else n.addr) && m.dhcpc == n.dhcpc && m.up == n.up
  {
  }

  // Stopping DHCP forgets what it stored and removes the address in use exactly when the client supplied it.
  lemma StopEffect(c: Config, n: Netif, supplied: bool)
    ensures var m := DhcpcStop(c, n, supplied);
            && m.dhcpc == DhcpStopped && m.up == n.up
            && (n.dhcpc.DhcpStarted? ==> m.info == NO_INFO && m.addr == if supplied then NO_INFO else n.addr)
            && (!n.dhcpc.DhcpStarted? ==> m.info == n.info && m.addr == n.addr)
  {
  }

  // A DHCP start forgets the stored address. On an interface that is down the client starts with the next link-up, and
  // it runs exactly when lwIP could start it.
  lemma StartsWithTheLink(c: Config, n: Netif, starts: bool, later: bool)
    requires c.dhcpClient && !n.dhcpc.DhcpStarted?
    ensures var m := DhcpcStart(c, n, starts);
            && m.info == NO_INFO
            && (n.up ==> m.addr == NO_INFO && (m.dhcpc.DhcpStarted? <==> starts))
            && (!n.up ==> m.dhcpc == DhcpInit && (Connected(c, m, later).dhcpc.DhcpStarted? <==> later))
  {
  }

  // A link-down leaves no address and no running client.
  lemma DownEffect(c: Config, n: Netif, supplied: bool)
    ensures var m := Down(c, n, supplied); !m.up && m.addr == NO_INFO && (c.dhcpClient ==> !m.dhcpc.DhcpStarted?)
  {
    hide SetAddr;
    SetAddrTimer(c, n, NO_INFO);
    var m := if c.dhcpClient && n.dhcpc.DhcpStarted?
             then DhcpOff(c, n, supplied).(dhcpc := DhcpInit, info := NO_INFO) else n;
    SetAddrTimer(c, m, NO_INFO);
  }

  // An interface whose address is configured by hand
  predicate ByHand(c: Config, n: Netif) {
    !n.dhcpc.DhcpStarted? && (c.dhcpClient ==> n.dhcpc.DhcpStopped?)
  }

  lemma StepKeepsStatic(c: Config, n: Netif, ev: Event)
    requires ByHand(c, n) && Enabled(n, ev) && !ev.Configure? && !ev.StartDhcp?
    ensures var m := Step(c, n, ev);
            ByHand(c, m) && m.info == n.info && (ev.LinkUp? ==> m.up && m.addr == n.info) && (ev.LinkDown? ==> !m.up)
  {
    hide SetAddr;
    StaticCallback(c, n, n.info);
    StaticCallback(c, n, NO_INFO);
  }

  lemma StaticCallback(c: Config, n: Netif, a: Info)
    requires !n.dhcpc.DhcpStarted? && (a == n.info || a == NO_INFO)
    ensures var m := SetAddr(c, n, a); m.info == n.info && m.addr == a && m.dhcpc == n.dhcpc && m.up == n.up
  {
  }

  // A static address outlives every loss: over any run without another configuration it stays stored, and each link-up
  // takes it into use again.
  lemma {:induction false} StaticIsKept(c: Config, n: Netif, events: seq<Event>)
    requires ByHand(c, n) && forall ev :: ev in events ==> !ev.Configure? && !ev.StartDhcp?
    ensures Run(c, n, events).info == n.info && ByHand(c, Run(c, n, events))
    ensures Connected(c, Run(c, n, events), true).addr == n.info
    decreases |events|
  {
    if events == [] {
      StepKeepsStatic(c, n, LinkUp(true));
    } else {
      hide Step, Enabled, Connected;
      assert events[0] in events;
      if Enabled(n, events[0]) {
        StepKeepsStatic(c, n, events[0]);
        StaticIsKept(c, Step(c, n, events[0]), events[1..]);
      } else {
        StaticIsKept(c, n, events[1..]);
      }
    }
  }

  // A static address set on an interface that is up is in use and stored afterwards. With the IP-modified flag it
  // is reported exactly once although lwIP calls back while it is set; without the flag, or when it is cleared, it
  // is not reported at all, and clearing it starts no lost timer.
  lemma StaticAddressReportedOnce(c: Config, n: Netif, a: Info)
    requires n.up && SetIpInfoError(c, n) == Ok
    ensures var m := SetIpInfo(c, n, a);
            && m.reports == n.reports + (if c.ipModified && a.ip != 0 then [GotIp(a, a != n.oldInfo)] else [])
            && m.addr == a && m.info == a
            && m.timerRunning == n.timerRunning && m.pending == n.pending
  {
    SetAddrReports(c, n.(info := a), a);
  }

  // ---- The address in use is the one that was told ------------------------

  // An address comes with a mask.
  predicate Masked(a: Info) {
    a.ip != 0 ==> a.mask != 0
  }

  // What keeps the reports complete: the address in use is the last one reported; beside a running DHCP client the
  // stored address is the one in use; and without one it has a mask.
  ghost predicate Complete(n: Netif) {
    && (n.addr.ip != 0 ==> n.up && n.oldInfo == n.addr && n.reports != [])
    && (if n.dhcpc.DhcpStarted?
        then n.up && (n.addr.ip != 0 || n.info.ip != 0 ==> n.info == n.addr)
        else Masked(n.info))
  }

  // The interface of the Ethernet port: a DHCP client without a server, with the IP-modified flag.
  predicate EthernetFlags(c: Config) {
    c.dhcpClient && !c.dhcpServer && c.ipModified
  }

  lemma ConnectedComplete(c: Config, n: Netif, starts: bool)
    requires EthernetFlags(c) && Complete(n)
    ensures Complete(Connected(c, n, starts))
  {
    hide SetAddr;
    StoredAddressSet(c, n);
  }

  lemma DownComplete(c: Config, n: Netif, supplied: bool)
    requires EthernetFlags(c) && Complete(n)
    ensures Complete(Down(c, n, supplied))
  {
  }

  lemma StepComplete(c: Config, n: Netif, ev: Event)
    requires EthernetFlags(c) && Complete(n) && Enabled(n, ev) && (ev.Configure? ==> Masked(ev.info))
    ensures Complete(Step(c, n, ev))
  {
    hide Connected, Down, SetIpInfo, SetAddr;
    match ev
    case LinkUp(starts) => ConnectedComplete(c, n, starts);
    case LinkDown(supplied) => DownComplete(c, n, supplied);
    case Configure(info) => ConfigureComplete(c, n, info);
    case Lease(info) => LeaseComplete(c, n, info);
    case StopDhcp(supplied) => StopComplete(c, n, supplied);
    case _ =>
  }

  lemma ConfigureComplete(c: Config, n: Netif, a: Info)
    requires EthernetFlags(c) && Complete(n) && Masked(a)
    ensures Complete(SetIpInfo(c, n, a))
  {
  }

  lemma LeaseComplete(c: Config, n: Netif, a: Info)
    requires EthernetFlags(c) && Complete(n) && n.up && n.dhcpc.DhcpStarted?
    ensures Complete(SetAddr(c, n, a))
  {
  }

  lemma StopComplete(c: Config, n: Netif, supplied: bool)
    requires EthernetFlags(c) && Complete(n)
    ensures Complete(Step(c, n, StopDhcp(supplied)))
  {
  }

  lemma {:induction false} RunComplete(c: Config, n: Netif, events: seq<Event>)
    requires EthernetFlags(c) && Complete(n)
    requires forall ev :: ev in events && ev.Configure? ==> Masked(ev.info)
    ensures Complete(Run(c, n, events))
    decreases |events|
  {
    if events != [] {
      assert events[0] in events;
      if Enabled(n, events[0]) {
        StepComplete(c, n, events[0]);
        RunComplete(c, Step(c, n, events[0]), events[1..]);
      } else {
        RunComplete(c, n, events[1..]);
      }
    }
  }

  // On the Ethernet port, after every run in which each configured address has a mask: while an address is in use,
  // the last report is GOT_IP with that address.
  lemma AddressInUseWasReported(c: Config, first: Info, events: seq<Event>)
    requires EthernetFlags(c) && Masked(first)
    requires forall ev :: ev in events && ev.Configure? ==> Masked(ev.info)
    ensures var n := Run(c, Created(first), events);
            n.addr.ip != 0 ==> n.reports != [] && n.reports[|n.reports| - 1].GotIp? && n.reports[|n.reports| - 1].info == n.addr
  {
    RunComplete(c, Created(first), events);
    ReportsAreTruthful(c, first, events);
  }

  // ---- Exactly when the address in use was not reported --------------------

  // The last report is GOT_IP with this address.
  ghost predicate ToldLast(reports: seq<Report>, a: Info) {
    reports != [] && reports[|reports| - 1].GotIp? && reports[|reports| - 1].info == a
  }

  ghost predicate Unreported(n: Netif) {
    n.addr.ip != 0 && !ToldLast(n.reports, n.addr)
  }

  // A link-up that takes a stored static address into use: it has been reported afterwards if and only if it has a mask
  // or was the address reported last anyway.
  lemma LinkUpIsReportedIff(c: Config, n: Netif, starts: bool)
    requires c.dhcpClient && n.dhcpc.DhcpStopped? && n.addr == NO_INFO && n.info.ip != 0
    ensures var m := Connected(c, n, starts);
            && m.addr == n.info
            && (ToldLast(m.reports, m.addr) <==> n.info.mask != 0 || ToldLast(n.reports, n.info))
  {
  }

  // A link-up in this state takes a static address into use that nobody is told.
  ghost predicate SilentLinkUp(n: Netif) {
    && n.dhcpc.DhcpStopped? && n.addr != n.info
    && n.info.ip != 0 && n.info.mask == 0 && !ToldLast(n.reports, n.info)
  }

  // The event clears the address or reports the one it sets.
  predicate EndsSilence(c: Config, n: Netif, ev: Event) {
    || ev.LinkDown?
    || (ev.StartDhcp? && !n.dhcpc.DhcpStarted?)
    || (ev.Configure? && SetIpInfoError(c, n) == Ok)
  }

  // Whether a silent link-up came after the last event that ends silence; silent says so of the time before the run.
  ghost predicate SilentSince(c: Config, n: Netif, events: seq<Event>, silent: bool)
    decreases |events|
  {
    if events == [] then silent
    else if !Enabled(n, events[0]) then SilentSince(c, n, events[1..], silent)
    else SilentSince(c, Step(c, n, events[0]), events[1..],
                     (silent && !EndsSilence(c, n, events[0])) || (events[0].LinkUp? && SilentLinkUp(n)))
  }

  // What the events keep, whatever is configured: an address that was not reported is a stored static one without a
  // mask, and beside a running DHCP client the stored address is the one in use.
  ghost predicate Accounted(n: Netif) {
    && (n.addr.ip != 0 ==> n.up)
    && (Unreported(n) ==> n.dhcpc.DhcpStopped? && n.info == n.addr && n.info.mask == 0)
    && (n.dhcpc.DhcpStarted? ==> n.up && (n.addr.ip != 0 || n.info.ip != 0 ==> n.info == n.addr))
  }

  ghost predicate SilentAfter(c: Config, n: Netif, ev: Event) {
    (Unreported(n) && !EndsSilence(c, n, ev)) || (ev.LinkUp? && SilentLinkUp(n))
  }

  lemma ConnectedAccounted(c: Config, n: Netif, starts: bool)
    requires EthernetFlags(c) && Accounted(n)
    ensures var m := Connected(c, n, starts);
            Accounted(m) && (Unreported(m) <==> Unreported(n) || SilentLinkUp(n))
  {
    hide SetAddr;
    SetAddrReports(c, n, n.info);
    StoredAddressSet(c, n);
  }

  // Setting the stored address changes nothing but the address, and starts no timer.
  lemma StoredAddressSet(c: Config, n: Netif)
    ensures SetAddr(c, n, n.info) == n.(addr := n.info)
  {
  }

  lemma DownAccounted(c: Config, n: Netif, supplied: bool)
    requires EthernetFlags(c) && Accounted(n)
    ensures Accounted(Down(c, n, supplied)) && !Unreported(Down(c, n, supplied))
  {
    hide ToldLast;
  }

  lemma LeaseAccounted(c: Config, n: Netif, a: Info)
    requires EthernetFlags(c) && Accounted(n) && n.up && n.dhcpc.DhcpStarted?
    ensures Accounted(SetAddr(c, n, a)) && !Unreported(SetAddr(c, n, a))
  {
  }

  lemma ConfigureAccounted(c: Config, n: Netif, a: Info)
    requires EthernetFlags(c) && Accounted(n)
    ensures var m := SetIpInfo(c, n, a);
            Accounted(m) && (Unreported(m) <==> Unreported(n) && SetIpInfoError(c, n) != Ok)
  {
    if n.up && SetIpInfoError(c, n) == Ok {
      StaticAddressReportedOnce(c, n, a);
    }
  }

  lemma StopAccounted(c: Config, n: Netif, supplied: bool)
    requires EthernetFlags(c) && Accounted(n)
    ensures Accounted(DhcpcStop(c, n, supplied)) && (Unreported(DhcpcStop(c, n, supplied)) <==> Unreported(n))
  {
    SetAddrReports(c, n, NO_INFO);
  }

  lemma StepAccounted(c: Config, n: Netif, ev: Event)
    requires EthernetFlags(c) && Accounted(n) && Enabled(n, ev)
    ensures Accounted(Step(c, n, ev)) && (Unreported(Step(c, n, ev)) <==> SilentAfter(c, n, ev))
  {
    hide Connected, Down, SetIpInfo, SetAddr, DhcpcStop;
    match ev
    case LinkUp(starts) => ConnectedAccounted(c, n, starts);
    case LinkDown(supplied) => DownAccounted(c, n, supplied);
    case Configure(info) => ConfigureAccounted(c, n, info);
    case StartDhcp(_) =>
    case StopDhcp(supplied) => StopAccounted(c, n, supplied);
    case Lease(info) => LeaseAccounted(c, n, info);
    case Timeout =>
  }

  lemma {:induction false} RunAccounted(c: Config, n: Netif, events: seq<Event>)
    requires EthernetFlags(c) && Accounted(n)
    ensures Unreported(Run(c, n, events)) <==> SilentSince(c, n, events, Unreported(n))
    decreases |events|
  {
    hide Accounted, Unreported, Step, Enabled;
    if events != [] {
      if Enabled(n, events[0]) {
        StepAccounted(c, n, events[0]);
        RunAccounted(c, Step(c, n, events[0]), events[1..]);
      } else {
        RunAccounted(c, n, events[1..]);
      }
    }
  }

  // On the Ethernet port, after every run, with any addresses configured: the address in use is not the one reported
  // last if and only if a silent link-up came after the last link-down, DHCP start and accepted configuration.
  lemma UnreportedIff(c: Config, first: Info, events: seq<Event>)
    requires EthernetFlags(c)
    ensures Unreported(Run(c, Created(first), events)) <==> SilentSince(c, Created(first), events, false)
  {
    RunAccounted(c, Created(first), events);
  }

  // Such a run: a static address without a mask, stored while the link is down, is then used and never reported.
  lemma MasklessAddressIsNotReported(c: Config, a: Info)
    requires EthernetFlags(c) && a.ip != 0 && a.mask == 0
    ensures var n := Run(c, Created(NO_INFO), [StopDhcp(false), Configure(a), LinkUp(true)]);
            n.addr == a && n.reports == []
  {
    var events := [StopDhcp(false), Configure(a), LinkUp(true)];
    var n1 := Step(c, Created(NO_INFO), events[0]);
    var n2 := Step(c, n1, events[1]);
    assert events[1..][1..] == [LinkUp(true)] && events[1..][0] == Configure(a);
    assert [LinkUp(true)][1..] == [];
    assert Run(c, n2, [LinkUp(true)]) == Step(c, n2, LinkUp(true));
  }

  // ---- The interface object -----------------------------------------------

  class Interface {
    const c: Config
    var addr: Info
    var up: bool
    var info: Info
    var oldInfo: Info
    var timerRunning: bool
    var pending: nat
    var dhcpc: Dhcp
    var dhcps: Dhcp
    ghost var reports: seq<Report>

    ghost function View(): Netif
      reads this
    {
      Netif(addr, up, info, oldInfo, timerRunning, pending, dhcpc, dhcps, reports)
    }

    constructor (c: Config, info: Info)
      ensures View() == Created(info) && this.c == c
    {
      this.c := c;
      addr, up, this.info, oldInfo := NO_INFO, false, info, info;
      timerRunning, pending, dhcpc, dhcps, reports := false, 0, DhcpInit, DhcpInit, [];
    }

    // esp_netif_start_ip_lost_timer
    method StartTimer()
      modifies `timerRunning, `pending
      ensures View() == StartLostTimer(old(View()))
    {
      if timerRunning {
        return;
      }
      timerRunning := true;
      pending := pending + 1;
    }

    // esp_netif_internal_dhcpc_cb
    method InternalCallback()
      modifies `info, `oldInfo, `timerRunning, `pending, `reports
      ensures View() == Callback(c, old(View()))
    {
      if addr.ip != 0 {
        if addr.ip != info.ip || addr.mask != info.mask || addr.gw != info.gw {
          info := addr;
          var changed := info != oldInfo;
          oldInfo := info;
          reports := reports + [GotIp(info, changed)];
        }
      } else if info.ip != 0 {
        StartTimer();
        if c.dhcpClient && dhcpc == DhcpStarted {
          info := NO_INFO;
        }
      }
    }

    // netif_set_addr, the three fields: an address is removed before the others change and set after them.
    method SetFields(a: Info) returns (changed: bool)
      modifies `addr
      ensures addr == a && changed == (a != old(addr))
    {
      changed := false;
      var remove := a.ip == 0;
      if remove && addr.ip != a.ip {
        addr := addr.(ip := a.ip);
        changed := true;
      }
      if addr.mask != a.mask {
        addr := addr.(mask := a.mask);
        changed := true;
      }
      if addr.gw != a.gw {
        addr := addr.(gw := a.gw);
        changed := true;
      }
      if !remove && addr.ip != a.ip {
        addr := addr.(ip := a.ip);
        changed := true;
      }
    }

    // netif_set_addr; one callback after all fields are set
    method NetifSetAddr(a: Info)
      modifies `addr, `info, `oldInfo, `timerRunning, `pending, `reports
      ensures View() == SetAddr(c, old(View()), a)
    {
      hide Callback;
      var changed := SetFields(a);
      if changed {
        InternalCallback();
      }
    }

    // esp_netif_ip_lost_timer
    method LostTimer()
      requires pending > 0
      modifies `info, `oldInfo, `timerRunning, `pending, `reports
      ensures View() == LostTimeout(c, old(View()))
    {
      pending := pending - 1;
      timerRunning := false;
      if addr.ip == 0 {
        oldInfo := NO_INFO;
        if c.dhcpClient && dhcpc == DhcpStarted {
          info := NO_INFO;
        }
        reports := reports + [Lost(c.lostEvent)];
      }
    }

    // esp_netif_set_ip_info_api
    method SetInfo(a: Info) returns (r: Error)
      modifies `addr, `info, `oldInfo, `timerRunning, `pending, `reports
      ensures View() == SetIpInfo(c, old(View()), a)
      ensures r == SetIpInfoError(c, old(View()))
    {
      hide SetAddr;
      if c.dhcpServer {
        if dhcps != DhcpStopped {
          return DhcpNotStopped;
        }
      } else if c.dhcpClient {
        if dhcpc != DhcpStopped {
          return DhcpNotStopped;
        }
      }
      info := a;
      if up {
        NetifSetAddr(a);
        if c.ipModified && a.ip != 0 {
          var changed := a != oldInfo;
          oldInfo := a;
          reports := reports + [GotIp(a, changed)];
        }
      }
      return Ok;
    }

    // dhcp_stop, with an address that lwIP's DHCP client supplied or without one
    method StopClient(supplied: bool)
      modifies `addr, `info, `oldInfo, `timerRunning, `pending, `reports
      ensures View() == DhcpOff(c, old(View()), supplied)
    {
      if supplied {
        NetifSetAddr(NO_INFO);
      }
    }

    // esp_netif_dhcpc_stop_api
    method DhcpcStopApi(supplied: bool) returns (r: Error)
      modifies this
      ensures View() == DhcpcStop(c, old(View()), supplied)
      ensures r == if old(dhcpc) == DhcpStopped then AlreadyStopped else Ok
    {
      hide DhcpOff;
      if dhcpc == DhcpStarted {
        StopClient(supplied);
        info := NO_INFO;
        StartTimer();
      } else if dhcpc == DhcpStopped {
        return AlreadyStopped;
      }
      dhcpc := DhcpStopped;
      return Ok;
    }

    // esp_netif_dhcpc_start_api
    method DhcpcStartApi(starts: bool) returns (r: Error)
      modifies this
      ensures View() == DhcpcStart(c, old(View()), starts)
      ensures r == if old(dhcpc) == DhcpStarted then AlreadyStarted
                   else if up && !starts then StartFailed else Ok
    {
      if dhcpc == DhcpStarted {
        return AlreadyStarted;
      }
      info := NO_INFO;
      if !up {
        dhcpc := DhcpInit;
        return Ok;
      }
      addr := NO_INFO;
      StartTimer();
      if !starts {
        return StartFailed;
      }
      dhcpc := DhcpStarted;
      return Ok;
    }

    // esp_netif_up_api
    method UpApi()
      modifies this
      ensures View() == Up(c, old(View()))
    {
      hide SetAddr;
      NetifSetAddr(info);
      up := true;
    }

    // esp_netif_action_connected
    method ActionConnected(starts: bool)
      modifies this
      ensures View() == Connected(c, old(View()), starts)
    {
      hide Up;
      UpApi();
      if !c.dhcpClient {
        return;
      }
      if dhcpc == DhcpInit {
        var _ := DhcpcStartApi(starts);
      } else if dhcpc == DhcpStopped {
        if info.ip != 0 && info.mask != 0 {
          var changed := info != oldInfo;
          oldInfo := info;
          reports := reports + [GotIp(info, changed)];
        }
      }
    }

    // esp_netif_down_api
    method DownApi(supplied: bool)
      modifies this
      ensures View() == Down(c, old(View()), supplied)
    {
      hide SetAddr, DhcpOff;
      if c.dhcpClient && dhcpc == DhcpStarted {
        StopClient(supplied);
        dhcpc := DhcpInit;
        info := NO_INFO;
      }
      NetifSetAddr(NO_INFO);
      up := false;
      if c.dhcpClient {
        StartTimer();
      }
    }

    // The network task handles one event.
    method Handle(ev: Event)
      requires Enabled(View(), ev)
      modifies this
      ensures View() == Step(c, old(View()), ev)
    {
      hide Connected, Down, SetIpInfo, DhcpcStart, DhcpcStop, SetAddr, LostTimeout;
      match ev
      case LinkUp(starts) => ActionConnected(starts);
      case LinkDown(supplied) => DownApi(supplied);
      case Configure(info) => var _ := SetInfo(info);
      case StartDhcp(starts) => var _ := DhcpcStartApi(starts);
      case StopDhcp(supplied) => var _ := DhcpcStopApi(supplied);
      case Lease(info) => NetifSetAddr(info);
      case Timeout => LostTimer();
    }
  }

  // An interface from its creation through any events: its reports are truthful, and on the Ethernet port the address
  // in use is the one reported last unless a silent link-up came last.
  method HandleAll(c: Config, first: Info, events: seq<Event>) returns (netif: Interface)
    ensures fresh(netif) && netif.View() == Run(c, Created(first), events)
    ensures Truthful(first, netif.reports) && netif.oldInfo == Told(first, netif.reports)
    ensures netif.pending == if netif.timerRunning then 1 else 0
    ensures EthernetFlags(c) ==>
              (netif.addr.ip == 0 || ToldLast(netif.reports, netif.addr) <==> !SilentSince(c, Created(first), events, false))
  {
    hide Enabled, Step, Truthful, Told, ToldLast, SilentSince;
    netif := new Interface(c, first);
    var i := 0;
    assert events[0..] == events;
    while i < |events|
      invariant 0 <= i <= |events| && fresh(netif) && netif.c == c
      invariant Run(c, netif.View(), events[i..]) == Run(c, Created(first), events)
    {
      RunStep(c, netif.View(), events, i);
      var possible := !(events[i].Lease? && !(netif.up && netif.dhcpc.DhcpStarted?)) && !(events[i].Timeout? && netif.pending == 0);
      EnabledIff(netif.View(), events[i]);
      if possible {
        netif.Handle(events[i]);
      }
      i := i + 1;
    }
    assert events[i..] == [];
    ReportsAreTruthful(c, first, events);
    if EthernetFlags(c) {
      UnreportedIff(c, first, events);
    }
  }

  lemma EnabledIff(n: Netif, ev: Event)
    ensures Enabled(n, ev) <==> (ev.Lease? ==> n.up && n.dhcpc.DhcpStarted?) && (ev.Timeout? ==> n.pending > 0)
  {
  }

  lemma RunStep(c: Config, n: Netif, events: seq<Event>, i: nat)
    requires i < |events|
    ensures Run(c, n, events[i..])
            == if Enabled(n, events[i]) then Run(c, Step(c, n, events[i]), events[i + 1..]) else Run(c, n, events[i + 1..])
  {
    assert events[i..][0] == events[i] && events[i..][1..] == events[i + 1..];
  }
}
