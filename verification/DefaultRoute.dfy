/**
  Selection of the default interface (esp_netif_update_default_netif_lwip in esp_netif_lwip.c): kept up to date
  one report at a time, with a manual override. Every report is handled before the next change.
*/
module DefaultRoute {
  import opened NetifList

  datatype Action = SetDefault | Started | GotIp | Stopped | LostIp

  // handles: the interface list, head first; up: interfaces that are up; considered: those among them that were
  // looked at since they came up, in a report of their own or in a rescan; last: the default.
  datatype Route = Route(
    handles: seq<Handle>,
    up: set<Handle>,
    considered: set<Handle>,
    prio: map<Handle, int>,
    last: Handle,
    overridden: bool)

  ghost predicate WellFormed(r: Route) {
    && NULL !in r.handles
    && Distinct(r.handles)
    && r.considered <= r.up
    && (forall h :: h in r.up ==> h in r.handles)
    && (forall h :: h in r.handles ==> h in r.prio)
  }

  // ---- What the code computes ---------------------------------------------

  // One step of the rescan loop.
  function Better(h: Handle, best: Handle, up: set<Handle>, prio: map<Handle, int>): Handle
    requires h in prio && (best != NULL ==> best in prio)
  {
    if h !in up then best
    else if best != NULL && best in up then (if prio[h] > prio[best] then h else best)
    else h
  }

  // The rescan over the interfaces before position n.
  function Scan(r: Route, n: nat): (best: Handle)
    requires n <= |r.handles| && forall h :: h in r.handles ==> h in r.prio
    ensures best != NULL ==> best in r.handles
  {
    if n == 0 then NULL else Better(r.handles[n - 1], Scan(r, n - 1), r.up, r.prio)
  }

  lemma ScanStarts(r: Route)
    requires forall h :: h in r.handles ==> h in r.prio
    ensures Scan(r, 0) == NULL
  {
  }

  // esp_netif_update_default_netif_lwip
  ghost function Update(r: Route, h: Handle, action: Action): Route
    requires WellFormed(r) && h in r.prio && (r.last in r.handles ==> r.last in r.prio)
  {
    if r.overridden && !action.SetDefault? && r.last in r.handles then r
    else
      var r1 := if r.overridden && !action.SetDefault? then r.(last := NULL, overridden := false) else r;
      match action
      case SetDefault => r1.(last := h, overridden := true)
      case Started | GotIp =>
        var last := if r1.last in r1.handles then r1.last else NULL;
        var keep := (last != NULL && last in r1.up && r1.prio[last] > r1.prio[h]) || h !in r1.up;
        r1.(last := if keep then last else h, considered := if h in r1.up then r1.considered + {h} else r1.considered)
      case Stopped | LostIp => r1.(last := Scan(r1, |r1.handles|), considered := r1.up)
  }

  datatype Event =
    | Create(h: Handle, prio: int)
    | Destroy(h: Handle)
    | UpReported(h: Handle)
    | UpAwaitingLease(h: Handle)
    | Lease(h: Handle)
    | Down(h: Handle)
    | LeaseLost(h: Handle)
    | Override(h: Handle)

  ghost predicate Enabled(r: Route, ev: Event) {
    match ev
    case Create(h, _) => h != NULL && h !in r.handles
    case Lease(h) => h in r.up
    case Destroy(h) => h in r.handles
    case UpReported(h) => h in r.handles
    case UpAwaitingLease(h) => h in r.handles
    case Down(h) => h in r.handles
    case LeaseLost(h) => h in r.handles
    case Override(h) => h in r.handles
  }

  ghost function Apply(r: Route, ev: Event): Route
    requires WellFormed(r) && Enabled(r, ev)
  {
    match ev
    case Create(h, p) => r.(handles := [h] + r.handles, prio := r.prio[h := p])
    case Destroy(h) =>
      WithoutEffect(r.handles, h);
      Update(r.(handles := Without(r.handles, h), up := r.up - {h}, considered := r.considered - {h}), h, Stopped)
    case UpReported(h) => Update(r.(up := r.up + {h}), h, Started)
    case UpAwaitingLease(h) => r.(up := r.up + {h})
    case Lease(h) => Update(r, h, GotIp)
    case Down(h) => Update(r.(up := r.up - {h}, considered := r.considered - {h}), h, Stopped)
    case LeaseLost(h) => Update(r, h, LostIp)
    case Override(h) => Update(r, h, SetDefault)
  }

  lemma WithoutEffect(hs: seq<Handle>, h: Handle)
    requires Distinct(hs)
    ensures Distinct(Without(hs, h)) && h !in Without(hs, h)
    ensures forall k :: k != h ==> (k in Without(hs, h) <==> k in hs)
  {
    var n := IndexOf(hs, h);
    var w := Without(hs, h);
    if n < |hs| {
      forall i | 0 <= i < |w|
        ensures w[i] == hs[if i < n then i else i + 1]
      {
      }
      forall k | k != h && k in hs
        ensures k in w
      {
        var i :| 0 <= i < |hs| && hs[i] == k;
        assert w[if i < n then i else i - 1] == k;
      }
    }
  }

  // ---- What the default should be -----------------------------------------

  // h is up and no interface of among has a higher route priority.
  ghost predicate Leads(r: Route, h: Handle, among: set<Handle>)
    requires WellFormed(r) && among <= r.up
  {
    h in r.up && forall k :: k in among ==> r.prio[k] <= r.prio[h]
  }

  // The rescan finds nothing exactly when no interface is up, and otherwise one with the highest priority; among
  // equals the one nearest the head of the list.
  lemma {:induction false} ScanFindsTheLead(r: Route, n: nat)
    requires WellFormed(r) && n <= |r.handles|
    ensures var best := Scan(r, n);
            && (best == NULL <==> forall i :: 0 <= i < n ==> r.handles[i] !in r.up)
            && (best != NULL ==>
                  && best in r.up
                  && (exists i :: 0 <= i < n && r.handles[i] == best)
                  && (forall i :: 0 <= i < n && r.handles[i] in r.up ==> r.prio[r.handles[i]] <= r.prio[best])
                  && forall i, j :: 0 <= i < j < n && r.handles[j] == best && r.handles[i] in r.up ==>
                       r.prio[r.handles[i]] < r.prio[best])
  {
    if n > 0 {
      ScanFindsTheLead(r, n - 1);
      var h, best := r.handles[n - 1], Scan(r, n);
      assert h in r.handles;
      assert best == h ==> 0 <= n - 1 < n && r.handles[n - 1] == best;
    }
  }

  // What every report keeps.
  ghost predicate Inv(r: Route) {
    && WellFormed(r)
    && (r.overridden ==> r.last in r.handles)
    && (!r.overridden ==>
          if r.last == NULL then r.considered == {} else r.last in r.considered && Leads(r, r.last, r.considered))
  }

  lemma RescanInv(r: Route)
    requires WellFormed(r)
    ensures Inv(r.(last := Scan(r, |r.handles|), considered := r.up, overridden := false))
    ensures var best := Scan(r, |r.handles|);
            if best == NULL then r.up == {} else best in r.handles && Leads(r, best, r.up)
  {
    ScanFindsTheLead(r, |r.handles|);
    forall h | h in r.up
      ensures exists i :: 0 <= i < |r.handles| && r.handles[i] == h
    {
      assert h in r.handles;
    }
  }

  lemma UpdateInv(r: Route, h: Handle, action: Action)
    requires WellFormed(r) && h in r.prio && (r.overridden ==> r.last != NULL)
    requires action.SetDefault? ==> h in r.handles
    requires action.Started? || action.GotIp? ==> h in r.up && Inv(r)
    ensures Inv(Update(r, h, action))
  {
    if action.Stopped? || action.LostIp? {
      RescanInv(if r.overridden then r.(last := NULL, overridden := false) else r);
    } else if !action.SetDefault? {
      var r' := Update(r, h, action);
      forall k | k in r'.considered
        ensures !r'.overridden ==> r'.last in r'.considered && r'.last in r.up && r.prio[k] <= r.prio[r'.last]
      {
        assert k == h || k in r.considered;
      }
    }
  }

  // Among equal priorities the latest report wins: without an override the interface reported is the default
  // afterwards unless a listed one that is up has a higher priority.
  lemma LatestReportWinsTies(r: Route, h: Handle, action: Action)
    requires WellFormed(r) && !r.overridden && h in r.up && (action.Started? || action.GotIp?)
    ensures var last := Update(r, h, action).last;
            last == h || (last == r.last && last in r.up && r.prio[last] > r.prio[h])
  {
  }

  // A report of an interface that is not up changes nothing, but that a default which is no longer listed is dropped.
  lemma ReportOfDownIsIgnored(r: Route, h: Handle, action: Action)
    requires WellFormed(r) && !r.overridden && h in r.prio && h !in r.up && (action.Started? || action.GotIp?)
    ensures Update(r, h, action) == r.(last := if r.last in r.handles then r.last else NULL)
  {
  }

  // An interface that is reported up or gets its lease has been considered, whenever no override is in force; one that
  // stops, loses its lease or is destroyed makes the default the argmax over all that are up.
  lemma EventsConsider(r: Route, ev: Event)
    requires Inv(r) && Enabled(r, ev)
    ensures var t := Apply(r, ev);
            && WellFormed(t)
            && (!t.overridden && (ev.UpReported? || ev.Lease?) ==> ev.h in t.considered)
            && (!t.overridden && (ev.Down? || ev.LeaseLost? || ev.Destroy?) ==> t.considered == t.up && IsArgmax(t))
  {
    DoInv(r, ev);
    RescansConsider(r, ev);
    var t := Apply(r, ev);
    if t.considered == t.up && !t.overridden {
      InvIsArgmax(t);
    }
    hide IsArgmax, Scan;
  }

  lemma RescansConsider(r: Route, ev: Event)
    requires Inv(r) && Enabled(r, ev)
    ensures var t := Apply(r, ev);
            !t.overridden && (ev.Down? || ev.LeaseLost? || ev.Destroy?) ==> t.considered == t.up
  {
    hide Scan, Without;
  }

  // Which interfaces are up changes as the events say. A new one has the priority it was created with, and the others
  // keep theirs.
  lemma EventsChange(r: Route, ev: Event)
    requires Inv(r) && Enabled(r, ev)
    ensures Apply(r, ev).prio == if ev.Create? then r.prio[ev.h := ev.prio] else r.prio
    ensures Apply(r, ev).up
            == match ev
               case UpReported(h) => r.up + {h}
               case UpAwaitingLease(h) => r.up + {h}
               case Down(h) => r.up - {h}
               case Destroy(h) => r.up - {h}
               case _ => r.up
  {
    hide Scan, Without;
  }

  lemma InvIsArgmax(r: Route)
    requires Inv(r) && !r.overridden && r.considered == r.up
    ensures IsArgmax(r)
  {
  }

  lemma DoInv(r: Route, ev: Event)
    requires Inv(r) && Enabled(r, ev)
    ensures Inv(Apply(r, ev))
  {
    match ev
    case Create(h, p) =>
      var t := Apply(r, ev);
      forall i, j | 0 <= i < j < |t.handles|
        ensures t.handles[i] != t.handles[j]
      {
        assert t.handles[j] == r.handles[j - 1];
        assert i > 0 ==> t.handles[i] == r.handles[i - 1];
      }
    case Destroy(h) =>
      WithoutEffect(r.handles, h);
      UpdateInv(r.(handles := Without(r.handles, h), up := r.up - {h}, considered := r.considered - {h}), h, Stopped);
    case UpReported(h) =>
      UpdateInv(r.(up := r.up + {h}), h, Started);
    case UpAwaitingLease(h) =>
    case Lease(h) => UpdateInv(r, h, GotIp);
    case Down(h) => UpdateInv(r.(up := r.up - {h}, considered := r.considered - {h}), h, Stopped);
    case LeaseLost(h) => UpdateInv(r, h, LostIp);
    case Override(h) => UpdateInv(r, h, SetDefault);
  }

  ghost function DoAll(r: Route, events: seq<Event>): Route
    requires Inv(r)
    decreases |events|
  {
    if events == [] then r
    else if !Enabled(r, events[0]) then DoAll(r, events[1..])
    else
      DoInv(r, events[0]);
      DoAll(Apply(r, events[0]), events[1..])
  }

  // No interface yet.
  const AT_START := Route([], {}, {}, map[], NULL, false)

  // r.last is what a search over every interface that is up would choose.
  ghost predicate IsArgmax(r: Route)
    requires WellFormed(r)
  {
    if r.last == NULL then r.up == {} else r.last in r.handles && Leads(r, r.last, r.up)
  }

  // An interface that is up was not considered since, because it waits for its lease, and has a higher priority
  // than every interface that was.
  ghost predicate OverlooksTheBest(r: Route)
    requires WellFormed(r)
  {
    exists h :: h in r.up - r.considered && forall k :: k in r.considered ==> r.prio[h] > r.prio[k]
  }

  // In every state that events lead to, manual overrides and their end included: while no override is in force, the
  // incremental choice is the argmax over the interfaces that are up, exactly unless one that is still waiting has
  // a higher priority than all that were considered.
  lemma DefaultIsArgmax(events: seq<Event>)
    ensures var r := DoAll(AT_START, events);
            && WellFormed(r)
            && (!r.overridden ==> (IsArgmax(r) <==> !OverlooksTheBest(r)))
            && (r.overridden ==> r.last in r.handles)
  {
    RunsKeepInv(AT_START, events);
    if !DoAll(AT_START, events).overridden {
      ArgmaxIff(DoAll(AT_START, events));
    }
  }

  lemma ArgmaxIff(r: Route)
    requires Inv(r) && !r.overridden
    ensures IsArgmax(r) <==> !OverlooksTheBest(r)
  {
    if !IsArgmax(r) {
      var h :| h in r.up && (r.last == NULL || r.prio[h] > r.prio[r.last]);
      assert h in r.up - r.considered;
    }
  }

  lemma {:induction false} RunsKeepInv(r: Route, events: seq<Event>)
    requires Inv(r)
    ensures Inv(DoAll(r, events))
    decreases |events|
  {
    if events != [] {
      if Enabled(r, events[0]) {
        DoInv(r, events[0]);
        RunsKeepInv(Apply(r, events[0]), events[1..]);
      } else {
        RunsKeepInv(r, events[1..]);
      }
    }
  }

  // Starts that no DHCP client postpones leave nothing waiting, once no override is in force.
  ghost predicate NoneWaits(r: Route) {
    !r.overridden ==> r.considered == r.up
  }

  lemma PromptStep(r: Route, ev: Event)
    requires Inv(r) && NoneWaits(r) && Enabled(r, ev) && !ev.UpAwaitingLease?
    ensures NoneWaits(Apply(r, ev))
  {
    if ev.Destroy? {
      WithoutEffect(r.handles, ev.h);
    }
  }

  lemma {:induction false} PromptRuns(r: Route, events: seq<Event>)
    requires Inv(r) && NoneWaits(r) && forall ev :: ev in events ==> !ev.UpAwaitingLease?
    ensures NoneWaits(DoAll(r, events))
    decreases |events|
  {
    if events != [] {
      assert events[0] in events;
      if Enabled(r, events[0]) {
        DoInv(r, events[0]);
        PromptStep(r, events[0]);
        PromptRuns(Apply(r, events[0]), events[1..]);
      } else {
        PromptRuns(r, events[1..]);
      }
    }
  }

  // So with every start reported at once, the default is the argmax after every run, whenever no override is in
  // force.
  lemma PromptRunsChooseArgmax(events: seq<Event>)
    requires forall ev :: ev in events ==> !ev.UpAwaitingLease?
    ensures var r := DoAll(AT_START, events); WellFormed(r) && (!r.overridden ==> IsArgmax(r))
  {
    DefaultIsArgmax(events);
    PromptRuns(AT_START, events);
  }

  // An interface that is up but waits for its lease is not found: there is no default although one is up.
  lemma WaitingInterfaceIsOverlooked(h: Handle, prio: int)
    requires h != NULL
    ensures var r := DoAll(AT_START, [Event.Create(h, prio), UpAwaitingLease(h)]);
            WellFormed(r) && r.up == {h} && r.last == NULL && !r.overridden && OverlooksTheBest(r)
  {
    var r1 := Apply(AT_START, Event.Create(h, prio));
    DoInv(AT_START, Event.Create(h, prio));
    var events := [Event.Create(h, prio), UpAwaitingLease(h)];
    assert DoAll(AT_START, events) == DoAll(r1, [UpAwaitingLease(h)]) by {
      assert events[1..] == [UpAwaitingLease(h)];
    }
    var r2 := Apply(r1, UpAwaitingLease(h));
    DoInv(r1, UpAwaitingLease(h));
    assert DoAll(r1, [UpAwaitingLease(h)]) == r2 by {
      assert [UpAwaitingLease(h)][1..] == [];
    }
    assert h in r2.up - r2.considered;
  }

  lemma OverrideSurvives(r: Route, ev: Event)
    requires Inv(r) && r.overridden && Enabled(r, ev) && !ev.Override? && ev != Event.Destroy(r.last)
    ensures Apply(r, ev).overridden && Apply(r, ev).last == r.last
  {
    if ev.Destroy? {
      WithoutEffect(r.handles, ev.h);
      assert r.last in Without(r.handles, ev.h);
    }
  }

  // A manual choice stays until another is made or its interface is destroyed.
  lemma {:induction false} OverrideStays(r: Route, events: seq<Event>)
    requires Inv(r) && r.overridden
    requires forall ev :: ev in events ==> !ev.Override? && ev != Event.Destroy(r.last)
    ensures DoAll(r, events).overridden && DoAll(r, events).last == r.last
    decreases |events|
  {
    if events != [] {
      assert events[0] in events;
      if Enabled(r, events[0]) {
        DoInv(r, events[0]);
        OverrideSurvives(r, events[0]);
        OverrideStays(Apply(r, events[0]), events[1..]);
      } else {
        OverrideStays(r, events[1..]);
      }
    }
  }

  // The choice in force after an event: the interface of the choice itself, none once it is destroyed.
  function ChoiceAfter(now: Handle, ev: Event): Handle {
    match ev
    case Override(h) => h
    case Destroy(h) => if h == now then NULL else now
    case _ => now
  }

  // The last manual choice of a run whose interface was not destroyed since; NULL when there is none.
  ghost function Choice(r: Route, events: seq<Event>, now: Handle): Handle
    requires Inv(r)
    decreases |events|
  {
    if events == [] then now
    else if !Enabled(r, events[0]) then Choice(r, events[1..], now)
    else
      DoInv(r, events[0]);
      Choice(Apply(r, events[0]), events[1..], ChoiceAfter(now, events[0]))
  }

  // The override that is in force is that choice.
  ghost predicate Follows(r: Route, now: Handle) {
    r.overridden == (now != NULL) && (r.overridden ==> r.last == now)
  }

  lemma ChoiceTakesEffect(r: Route, ev: Event, now: Handle)
    requires Inv(r) && Enabled(r, ev) && Follows(r, now)
    ensures Follows(Apply(r, ev), ChoiceAfter(now, ev))
  {
    if ev.Destroy? {
      WithoutEffect(r.handles, ev.h);
    }
  }

  lemma {:induction false} ChoicesTakeEffect(r: Route, events: seq<Event>, now: Handle)
    requires Inv(r) && Follows(r, now)
    ensures Follows(DoAll(r, events), Choice(r, events, now))
    decreases |events|
  {
    InvIsWellFormed(r);
    hide Inv, Apply, Enabled, Follows;
    if events != [] {
      if Enabled(r, events[0]) {
        DoInv(r, events[0]);
        ChoiceTakesEffect(r, events[0], now);
        ChoicesTakeEffect(Apply(r, events[0]), events[1..], ChoiceAfter(now, events[0]));
      } else {
        ChoicesTakeEffect(r, events[1..], now);
      }
    }
  }

  // After every run: an override is in force if and only if the interface that was chosen last was not destroyed since,
  // and then that interface is the default.
  lemma LastChoiceIsDefault(events: seq<Event>)
    ensures var r, h := DoAll(AT_START, events), Choice(AT_START, events, NULL);
            r.overridden == (h != NULL) && (h != NULL ==> r.last == h)
  {
    ChoicesTakeEffect(AT_START, events, NULL);
  }

  // Destroying the chosen interface ends the override: the argmax over what is left takes over.
  lemma DestroyEndsOverride(r: Route)
    requires Inv(r) && r.overridden
    ensures var r' := Apply(r, Event.Destroy(r.last));
            WellFormed(r') && !r'.overridden && IsArgmax(r') && r'.up == r.up - {r.last}
  {
    DoInv(r, Event.Destroy(r.last));
    WithoutEffect(r.handles, r.last);
    RescanInv(Route(Without(r.handles, r.last), r.up - {r.last}, r.considered - {r.last}, r.prio, NULL, false));
  }

  // ---- The static variables -----------------------------------------------

  class Router {
    const list: List
    var up: set<Handle>          // interfaces for which esp_netif_is_netif_up holds
    var prio: map<Handle, int>   // route_prio
    var last: Handle             // s_last_default_esp_netif
    var overridden: bool         // s_is_last_default_esp_netif_overridden
    ghost var considered: set<Handle>

    ghost function View(): Route
      reads this, list
    {
      Route(list.Handles(), up, considered, prio, last, overridden)
    }

    ghost predicate Valid()
      reads this, list, list.spine
    {
      list.Valid() && WellFormed(View())
    }

    constructor ()
      ensures Valid() && View() == AT_START && fresh(list)
    {
      list := new List();
      up, prio, last, overridden, considered := {}, map[], NULL, false, {};
    }

    // The body of the rescan loop
    method Consider(netif: Handle)
      requires netif in prio && (last != NULL ==> last in prio)
      modifies `last
      ensures last == Better(netif, old(last), up, prio)
    {
      if netif in up {
        if last != NULL && last in up {
          if prio[netif] > prio[last] {
            last := netif;
          }
        } else {
          last := netif;
        }
      }
    }

    // One turn of the rescan loop, at position n of the list
    method Advance(netif: Handle, ghost r: Route, ghost n: nat) returns (next: Handle)
      requires Valid() && View() == r.(last := last)
      requires n < |r.handles| && netif == r.handles[n] && last == Scan(r, n)
      modifies `last
      ensures Valid() && View() == r.(last := last) && last == Scan(r, n + 1)
      ensures next == if n + 1 < |r.handles| then r.handles[n + 1] else NULL
    {
      hide Better, List.Linked, List.Valid, List.Handles;
      assert netif in r.handles;
      NextStepsThrough(r.handles, n);
      Consider(netif);
      next := list.Next(netif);
    }

    // esp_netif_update_default_netif_lwip, STOPPED and LOST_IP
    method Rescan()
      requires Valid()
      modifies `last, `considered
      ensures Valid()
      ensures View() == old(View()).(last := Scan(old(View()), |list.Handles()|), considered := up)
    {
      hide Better, Scan, Distinct, List.Linked, List.Valid, List.Handles;
      ghost var n, r := 0, View();
      ScanStarts(r);
      last := NULL;
      var netif := list.Next(NULL);
      while netif != NULL
        invariant Valid() && View() == r.(last := last)
        invariant n <= |r.handles| && last == Scan(r, n)
        invariant netif == if n < |r.handles| then r.handles[n] else NULL
        decreases |r.handles| - n
      {
        netif := Advance(netif, r, n);
        n := n + 1;
      }
      considered := up;
    }

    // esp_netif_update_default_netif_lwip, STARTED and GOT_IP
    method Report(netif: Handle)
      requires Valid() && !overridden && netif in prio
      modifies `last, `considered
      ensures Valid()
      ensures View() == Update(old(View()), netif, Started)
    {
      hide Scan, Distinct, List.Linked, List.Valid, List.Handles;
      var active := list.IsListed(last);
      if !active {
        last := NULL;
      }
      considered := if netif in up then considered + {netif} else considered;
      if !(last != NULL && last in up && prio[last] > prio[netif]) && netif in up {
        last := netif;
      }
    }

    // The check of a manual choice: does it still stand?
    method OverrideStands() returns (stands: bool)
      requires Valid()
      modifies `last, `overridden
      ensures Valid()
      ensures stands == old(overridden && last in list.Handles())
      ensures View() == if old(overridden) && !stands then old(View()).(last := NULL, overridden := false)
                        else old(View())
    {
      hide Scan, Distinct, List.Linked, List.Valid, List.Handles;
      if !overridden {
        return false;
      }
      stands := list.IsListed(last);
      if !stands {
        last := NULL;
        overridden := false;
      }
    }

    // esp_netif_update_default_netif_lwip
    method UpdateDefault(netif: Handle, action: Action)
      requires Valid() && netif in prio
      modifies `last, `overridden, `considered
      ensures Valid()
      ensures View() == Update(old(View()), netif, action)
    {
      hide Scan, Distinct, List.Linked, List.Valid, List.Handles;
      if action != SetDefault {
        var stands := OverrideStands();
        if stands {
          return;
        }
      }
      match action
      case SetDefault =>
        last := netif;
        overridden := true;
      case Started | GotIp => Report(netif);
      case Stopped | LostIp => Rescan();
    }

    // esp_netif_destroy as far as the default is concerned
    method DestroyInterface(netif: Handle)
      requires Valid() && Inv(View()) && netif in list.Handles()
      modifies this, list, list.spine
      ensures Valid() && View() == Apply(old(View()), Event.Destroy(netif))
      ensures forall item :: item in list.spine ==> item in old(list.spine)
    {
      WithoutEffect(list.Handles(), netif);
      hide Distinct, Without, Update, List.Linked, List.Valid, List.Handles;
      var _ := list.Remove(netif);
      up, considered := up - {netif}, considered - {netif};
      UpdateDefault(netif, Stopped);
    }

    // esp_netif_new as far as the default is concerned
    method CreateInterface(netif: Handle, priority: int)
      requires Valid() && Inv(View()) && netif != NULL && netif !in list.Handles()
      modifies this, list
      ensures Valid() && View() == Apply(old(View()), Event.Create(netif, priority))
      ensures forall item :: item in list.spine ==> item in old(list.spine) || fresh(item)
    {
      DoIsWellFormed(View(), Event.Create(netif, priority));
      hide Inv, Distinct, List.Linked, List.Valid, List.Handles;
      list.Add(netif);
      prio := prio[netif := priority];
      assert list.spine == [list.spine[0]] + list.spine[1..];
    }

    // An interface goes up; reported says whether that is reported at once.
    method BringUp(netif: Handle, reported: bool)
      requires Valid() && Inv(View()) && netif in list.Handles()
      modifies this
      ensures Valid()
      ensures View() == Apply(old(View()), if reported then UpReported(netif) else UpAwaitingLease(netif))
    {
      hide Inv, Distinct, Update, List.Linked, List.Valid, List.Handles;
      up := up + {netif};
      if reported {
        UpdateDefault(netif, Started);
      }
    }

    // It goes down.
    method TakeDown(netif: Handle)
      requires Valid() && Inv(View()) && netif in list.Handles()
      modifies this
      ensures Valid() && View() == Apply(old(View()), Down(netif))
    {
      hide Inv, Distinct, Update, List.Linked, List.Valid, List.Handles;
      up, considered := up - {netif}, considered - {netif};
      UpdateDefault(netif, Stopped);
    }

    // The platform reports one change.
    method Handle(ev: Event)
      requires Valid() && Inv(View()) && Enabled(View(), ev)
      modifies this, list, list.spine
      ensures Valid() && Inv(View()) && View() == Apply(old(View()), ev)
      ensures forall item :: item in list.spine ==> item in old(list.spine) || fresh(item)
    {
      DoInv(View(), ev);
      InvIsWellFormed(View());
      hide Inv, WellFormed, Update, List.Linked, List.Valid, List.Handles;
      match ev {
        case Create(h, p) => CreateInterface(h, p);
        case Destroy(h) => DestroyInterface(h);
        case UpReported(h) => BringUp(h, true);
        case UpAwaitingLease(h) => BringUp(h, false);
        case Lease(h) => UpdateDefault(h, GotIp);
        case Down(h) => TakeDown(h);
        case LeaseLost(h) => UpdateDefault(h, LostIp);
        case Override(h) => UpdateDefault(h, SetDefault);
      }
    }
  }

  lemma InvIsWellFormed(r: Route)
    requires Inv(r)
    ensures WellFormed(r) && (forall h :: h in r.handles ==> h in r.prio) && forall h :: h in r.up ==> h in r.prio
  {
  }

  lemma DoIsWellFormed(r: Route, ev: Event)
    requires Inv(r) && Enabled(r, ev)
    ensures WellFormed(Apply(r, ev))
  {
    DoInv(r, ev);
  }

  // A new router through any changes: it holds what the run gives. The last manual choice whose interface still exists is
  // its default; without one the default is the argmax unless one that was not considered has a higher priority than all that were.
  method HandleAll(events: seq<Event>) returns (router: Router)
    ensures fresh(router) && router.Valid() && router.View() == DoAll(AT_START, events)
    ensures !router.overridden ==> (IsArgmax(router.View()) <==> !OverlooksTheBest(router.View()))
    ensures (forall ev :: ev in events ==> !ev.UpAwaitingLease?) && !router.overridden ==> IsArgmax(router.View())
    ensures var h := Choice(AT_START, events, NULL); router.overridden == (h != NULL) && (h != NULL ==> router.last == h)
  {
    hide Apply, Enabled, Inv, IsArgmax, OverlooksTheBest, List.Linked, List.Valid, List.Handles;
    router := new Router();
    StartInv();
    assert events[0..] == events;
    for i := 0 to |events|
      invariant fresh(router) && fresh(router.list) && fresh(set item | item in router.list.spine)
      invariant router.Valid() && Inv(router.View()) && DoAll(router.View(), events[i..]) == DoAll(AT_START, events)
    {
      assert events[i..][0] == events[i] && events[i..][1..] == events[i + 1..];
      EnabledIff(router.View(), events[i]);
      var listed := router.list.IsListed(events[i].h);
      var possible := if events[i].Create? then events[i].h != NULL && !listed
                      else if events[i].Lease? then events[i].h in router.up
                      else listed;
      if possible {
        router.Handle(events[i]);
      }
    }
    DefaultIsArgmax(events);
    LastChoiceIsDefault(events);
    if forall ev :: ev in events ==> !ev.UpAwaitingLease? {
      PromptRunsChooseArgmax(events);
    }
  }

  lemma StartInv()
    ensures Inv(AT_START)
  {
  }

  lemma EnabledIff(r: Route, ev: Event)
    ensures Enabled(r, ev) <==> if ev.Create? then ev.h != NULL && ev.h !in r.handles
                                else if ev.Lease? then ev.h in r.up
                                else ev.h in r.handles
  {
  }
}
