# Verified cores of the ESP32 EtherNet/IP adapter firmware

This project models the stateful cores of the firmware in Dafny and proves what they promise, over all inputs and all
runs. `dafny verify dfyconfig.toml` checks everything; nothing is executed.

Code that works by changing state is modelled by classes whose methods follow the source's branches and loops. Each such
method is tied to a function on values (`View() == F(old(View()), ...)`), and what the source promises is proved about
those functions as invariants and theorems over runs.

| file | what it models |
|---|---|
| `Options.dfy` | A value that may be missing |
| `AcdModel.dfy` | Static addresses with address conflict detection: the coordinator of `main/main.c`, lwIP's ACD engine and the platform's timers and tasks as one state machine |
| `AcdSafety.dfy` | No address is installed that was not vetted |
| `AcdRetry.dfy` | Retries are bounded, and how many there are |
| `AcdProgress.dfy` | How long a probe sequence takes |
| `AcdAttempts.dfy` | When a probe starts, that it comes to an address in use, and when it stops |
| `AcdDefence.dfy` | What is made of the ARP packets heard: giving way, defence, rate limiting, periodic probes |
| `AcdDevice.dfy` | The imperative form of that state machine |
| `L2TapSockets.dfy` | The L2 TAP socket table: who takes a frame and who owns its buffer |
| `L2TapClose.dfy` | Closing a socket with blocked readers |
| `L2TapRecords.dfy` | Information records of an extended buffer |
| `NetifList.dfy` | The linked list of network interfaces |
| `DefaultRoute.dfy` | Selection of the default interface |
| `IpEvents.dfy` | GOT_IP and LOST_IP reports |
| `DhcpPool.dfy` | The check of a DHCP server's address pool |
| `LogBuffer.dfy` | The circular log buffer |
| `ModbusRegisters.dfy` | The Modbus register map over the three assemblies |
| `ModbusServer.dfy` | Modbus TCP framing and dispatch |
| `ComplementaryFilter.dfy` | The complementary filter, in reals |
| `LoadCell.dfy` | Load-cell averaging and 24-bit registers |
| `McpTable.dfy` | The stored table of MCP devices |

## Where the code differs from its documentation

The model follows the code.

- Retries: `docs/ACD_CONFLICT_REPORTING.md:156-160` promises up to the configured maximum. `acd_restart` calls the
  callback twice for one conflict and each call counts a retry, so half the maximum, rounded up, is what a persistent
  conflict gets (`AcdRetry.RetriesAreHalfTheCount`, `AcdRetry.ConfiguredRetriesReachedOnlyForOne`).
- Announcements: `docs/ACD_CONFLICT_REPORTING.md:25` says two; the image is configured for four (`sdkconfig:781`).
- Byte order: `README.md:237` says that the assemblies are little-endian. The read path agrees; the write path swaps a value that
  is already in place (`ModbusRegisters.ReadBackIsSwapped`).
- L2 TAP: filters of one driver are kept distinct so that a frame has one reader; frames below the 802.3 length limit
  are taken by every length filter, and the second taker's full queue frees the buffer the first one holds
  (`L2TapSockets.OneTakerIff`, `L2TapSockets.RunBalancedIff`, `L2TapSockets.TwoTakersBreakBalance`).

## Granularity and assumptions

- ACD: `select_acd` is set, retries are enabled, the interface is configured once. Each callback, timeout and handler is
  one step; `tcpip_try_pending_acd` is split at its semaphore wait. The outcome of each allocation before the wait, of
  each queue attempt and of the wait is a choice of the environment, as are link, ARP traffic and time. Setting the
  address through `esp_netif_set_ip_info` succeeds, since the DHCP client is stopped.
- L2 TAP: in the socket table each operation is one step; in the close handshake each reader's and the clean task's queue
  operation is one, and a reader that can move runs before the clean task, which has idle priority.
- Default interface: each start, stop, lease or loss is handled before the next change; route priorities are fixed.
- IP reports: each operation of the network task is one step, `esp_netif_action_connected` too. Whether lwIP's DHCP client
  had supplied the address when it is stopped, and when it sets or clears one, is a choice of the environment.
- L2 TAP records: pointers and sizes are 32-bit and their sums wrap; the buffer ends within the address space; memory around it
  is read and written as any other. A record's header is eight bytes at a distance from the base that is a multiple of eight.
- DHCP pool: addresses are in host byte order; the bit operations are defined on binary digits of numbers below 2^32.
- Modbus: a socket hands out a stream in pieces of any size, with would-block, reset and errors in between.
- Filter: real arithmetic; the angles that `atan2f` and `asinf` give are inputs.
- Load cell: a transfer is a number or a failure; ticks count at 100 a second (`sdkconfig:1471`) and wrap at 2^32.
- MCP table: all NVS calls succeed; `nvs_get_blob` refuses a blob that is longer than the room it is given.

## Model

| member | source | states |
|---|---|---|
| AcdSafety.EveryInstalledAddressWasVetted | main/main.c:520-551 | After every run of link events, timeouts, retries, engine ticks and ARP traffic: each address ever installed was the one probed last, its 3 probes and 4 announcements were all sent, of all ARP packets heard since its start none conflicted before the first announcement and at most one from then on, the coordinator was then told ACD_IP_OK, and no conflict verdict, new probe sequence or reset of the received flag came in between; the address in use is the one the history leaves |
| AcdSafety.RetryingMeansNoAddress | main/main.c:561-580 | In every reachable state a positive retry count means address 0.0.0.0 and a reported fault, so the branch that gives up leaves no conflicting address although it removes nothing |
| AcdSafety.NoVerdictBeforeSemaphore | main/main.c:734-757 | In every reachable state, while the ACD semaphore does not exist no verdict has come and the engine is idle |
| AcdSafety.StepInv | main/main.c:948-1015 | Every step of every party keeps the relation between engine, coordinator and history on which the safety theorem rests |
| AcdRetry.RetriesAreBounded | main/main.c:567-577 | With a positive maximum M, in every reachable state: the retry count is at most M; retry-timer expiries since the last ACD_IP_OK, plus the one an armed timer owes, are at most half of M rounded up; and expiries never exceed the count |
| AcdRetry.PersistentConflictStops | main/main.c:1046-1118 | For every maximum M there is a run, from boot, with an address that another host uses, in which the timer expires half of M times, rounded up; the timer is then idle with the count at M |
| AcdRetry.RetriesAreHalfTheCount | main/main.c:1067-1118 | From the first probe after boot, over every run in which only the retry timer starts probes and none succeeds, whoever answers, however often and whenever: expiries, with the armed one, are half the retry count, rounded up; a device that has given up has made exactly half of M retries, rounded up |
| AcdRetry.StepIsExact | main/main.c:1067-1118 | Every such step keeps that count exact |
| AcdRetry.ConfiguredRetriesReachedOnlyForOne | docs/ACD_CONFLICT_REPORTING.md:156-160 | The documented number of retries (up to the configured maximum) can be reached if and only if that maximum is 1, because each conflict calls the callback twice |
| AcdRetry.RestartEffect | components/lwip/lwip/src/core/ipv4/acd.c:642-666 | One engine restart tells DECLINE and, below the conflict limit, RESTART_CLIENT at once, and so counts up to two retries |
| AcdRetry.GivingUpIsFinal | main/main.c:574-577 | Once the limit is reached with the timer idle, no run without a new ACD_IP_OK arms the timer or lets it expire again, whatever link, timeouts and network do |
| AcdRetry.StepRetryInv | main/main.c:1067-1118 | Every step keeps the account of retries: count, armed timer and expiries since the last ACD_IP_OK |
| AcdProgress.UndisturbedProbeInstalls | components/lwip/lwip/src/core/ipv4/acd.c:379-635 | An undisturbed probe sequence tells ACD_IP_OK after exactly 85 engine ticks and not earlier, long after the 2 s wait; the wanted address is then installed and all retry state is reset |
| AcdProgress.TickIsProgress | components/lwip/lwip/src/core/ipv4/acd.c:379-635 | Each tick before the last brings the verdict one tick closer and tells the coordinator nothing |
| AcdProgress.LastTick | main/main.c:525-551 | The last tick confirms the address and installs it when it is still wanted |
| AcdProgress.UndisturbedRunInstalls | components/lwip/lwip/src/core/ipv4/acd.c:379-635 | From every reachable state in which the engine probes or announces, over every run that hears no conflict, loses no link and starts no new probe, with waits ending, retry timers expiring and packets in between: until the tick at which the verdict is due the address in use stays, and from it on the wanted address is in use with all retry state reset; from the first state of a probe that is the 85th tick |
| AcdAttempts.StartsIff | main/main.c:948-978 | A step starts a probe sequence if and only if its event - configuration, link, deferred timeout, retry timer whose callback was not queued, or queued retry - comes to a pending address with MAC address and link and the allocations succeed; the engine then probes for the wanted address, with old verdicts and signals forgotten |
| AcdAttempts.WorkIsConserved | main/main.c:948-1250 | The ledger of what the platform owes: each link event is followed by one timeout, at once or when its task has waited; an attempt without link sets one; each probe has one waiter until it is woken; each conflict found on waking, and each lost link, queues a stop of the engine |
| AcdAttempts.AttemptStaysDue | main/main.c:960-971 | An attempt that comes without a link leaves a timeout set |
| AcdAttempts.FailedAttempt | main/main.c:720-757 | A failed allocation reports the fault, forgets old verdicts and leaves the address pending, the engine and the address in use as they were |
| AcdAttempts.ProbeKeepsConflicts | main/main.c:792-892 | A client that is still registered keeps its count of conflicts from probe to probe, a new one begins at 0 |
| AcdAttempts.WakeDecides | main/main.c:981-1005 | A woken task puts a confirmed address into use, ends the attempt with the fault on a conflict, and otherwise leaves it open |
| AcdAttempts.AttemptInstalls | main/main.c:1017-1065 | From every reachable state: any event that starts a probe, a deferred timeout or a retry with or without queue among them, and 85 ticks of any run without disturbance put the wanted address into use |
| AcdAttempts.LateLinkInstalls | main/main.c:1017-1037 | From boot with the link event in front of the link flag: the deferred timeout starts the probe, and the configured address goes into use |
| AcdAttempts.StopsEngine | main/main.c:1252-1262 | A queued stop and the loss of the link flag turn the engine off; a lost-link event queues a stop |
| AcdAttempts.StoppedIsSilent | components/lwip/lwip/src/core/ipv4/acd.c:330-376 | An engine that is off sends nothing and tells nothing, whatever ticks, packets and link changes come, until the next attempt |
| AcdDefence.PacketDecides | components/lwip/lwip/src/core/ipv4/acd.c:674-828 | In every reachable state, for every ARP packet: the device gives way exactly when it probes and another host uses or probes for the address, or it represents the address, another host uses it and the history has a defence less than 100 ticks ago; it announces in defence exactly when the last of these is missing; every other packet changes nothing. Giving way means the verdict, the fault, a stopped engine and, below the limit, no address and a running retry timer |
| AcdDefence.SecondClaimGivesWayIff | components/lwip/lwip/src/core/ipv4/acd.c:813-820 | From every reachable state with the address in use: two claims with any undisturbed run between them make the device give the address up if and only if fewer than 100 ticks lie between |
| AcdDefence.ConflictTells | components/lwip/lwip/src/core/ipv4/acd.c:642-666 | A conflict is told twice and stops the engine; the tenth in a row is told once and rate-limits it for 600 ticks |
| AcdDefence.RateLimitEnds | components/lwip/lwip/src/core/ipv4/acd.c:599-608 | The second verdict then comes with the 600th tick and not before |
| AcdDefence.ProbesPeriodically | components/lwip/lwip/src/core/ipv4/acd.c:569-593 | From every reachable state with the address in use, over every undisturbed run: one periodic probe for every 900 ticks |
| AcdDevice.Device.AcdStartRetry | main/main.c:1067-1118 | Counts the retry, removes the address, stops and unregisters the engine and arms the one-shot timer, as the state machine says |
| AcdDevice.Device.AddressConfirmed | main/main.c:525-551 | On ACD_IP_OK the fault is cleared, retry count and timer are reset, and a wanted address that is still pending is installed |
| AcdDevice.Device.AddressRefused | main/main.c:552-581 | On a conflict the fault is set; a retry is scheduled exactly while the count is below the limit or there is no limit |
| AcdDevice.Device.ConflictCallback | main/main.c:520-590 | The whole callback: records the verdict before acting on it and gives the semaphore at the end |
| AcdDevice.Device.AcdRestart | components/lwip/lwip/src/core/ipv4/acd.c:642-666 | Both callbacks of a conflict, around the rate limit |
| AcdDevice.Device.ArpReply | components/lwip/lwip/src/core/ipv4/acd.c:674-828 | Which ARP packets are conflicts in which engine state, with one defence per interval |
| AcdDevice.Device.AcdTmr | components/lwip/lwip/src/core/ipv4/acd.c:379-635 | One engine tick on a listed client: the counters go down before its state is looked at; an unlisted client does nothing |
| AcdDevice.Device.AcdTmrState | components/lwip/lwip/src/core/ipv4/acd.c:420-635 | Probes, announcements, the verdict after the last announcement and the end of rate limiting come in the states and at the counts of the engine |
| AcdDevice.Device.PerformAcd | main/main.c:720-892 | Up to the wait: a failed allocation leaves the fault set and nothing started; otherwise the received flag is cleared before the probe starts |
| AcdDevice.Device.PerformAcdAfterWait | main/main.c:894-946 | After the wait: the result is true exactly when the last verdict is not a conflict; a conflict without a signal also queues the stop of the engine |
| AcdDevice.Device.CheckAndAssign | main/main.c:981-1005 | The check after the wait: cancel on a conflict, assign on a received ACD_IP_OK, otherwise leave it to the callback |
| AcdDevice.Device.TryPendingAcd | main/main.c:948-1015 | The deferrals (no MAC address, no link) and the start of a probe |
| AcdDevice.Device.ConfigureNetif | main/main.c:1142-1207 | With ACD selected the static address becomes pending and is not installed here |
| AcdDevice.Device.LinkConnected | main/main.c:1235-1250 | A link-up event tries the pending address and sets a deferred timeout when it returns |
| AcdDevice.Device.RetryDeferred | main/main.c:1017-1037 | A deferred timeout tries again while an address is pending |
| AcdDevice.Device.RetryTimerExpired | main/main.c:1046-1065 | The one-shot timer makes the address pending again and queues the retry, or makes it at once when it cannot be queued |
| AcdDevice.Device.WakeUp | main/main.c:894-1015 | A task that waited checks the verdict and assigns or cancels in one step |
| AcdDevice.Device.Handle | main/main.c:1017-1262 | Every event of the platform changes the object as the state machine's step says, of which the run theorems speak |
| AcdDevice.HandleAll | main/main.c:1017-1262 | The object after any events the platform can deliver from boot is what the run gives: every address it ever installed was vetted, it holds the one installed last, none while it retries, and its retries are bounded |
| L2TapSockets.DistinctFiltersSeparate | components/esp_netif/vfs_l2tap/esp_vfs_l2tap.c:223-259 | While open sockets have distinct (driver, filter) pairs, a frame above the 802.3 length limit has at most one taker |
| L2TapSockets.OneTakerIff | components/esp_netif/vfs_l2tap/esp_vfs_l2tap.c:231-234 | For a driver, every frame of whatever type has at most one taker if and only if the driver's open sockets have distinct filters and at most one of them filters lengths |
| L2TapSockets.LengthFramesCanHaveTwoTakers | components/esp_netif/vfs_l2tap/esp_vfs_l2tap.c:231-234 | Below the limit distinct filters are not enough: two sockets can take the same frame |
| L2TapSockets.FilterBalancedIff | components/esp_netif/vfs_l2tap/esp_vfs_l2tap.c:223-259 | A non-empty frame of any kind, with any number of takers, leaves the ledger balanced if and only if no socket that matches behind the first taker has a full queue |
| L2TapSockets.RunBalancedIff | components/esp_netif/vfs_l2tap/esp_vfs_l2tap.c:223-259 | Over every run, whatever is bound or filtered when: every buffer taken over is still queued or was freed, as often as it was taken, if and only if no frame of the run met such a socket; otherwise some were freed too often, never too seldom |
| L2TapSockets.TwoTakersBreakBalance | components/esp_netif/vfs_l2tap/esp_vfs_l2tap.c:242-252 | Such a run from two free descriptors, for every queue size and with a buffer of its own for each frame: the first socket filters nothing, the second filters lengths and is full; the last frame's buffer, taken over once, is the only one freed, while the first queue still holds it and will free it again |
| L2TapSockets.FilterEffect | components/esp_netif/vfs_l2tap/esp_vfs_l2tap.c:228-257 | What became of an offered frame, said without the loop: sockets that do not match are untouched, the first that matches gets the frame with its length, any later one gets it with length 0 |
| L2TapSockets.FilterClaims | components/esp_netif/vfs_l2tap/esp_vfs_l2tap.c:252-252 | The size becomes 0 exactly when the frame was taken, and otherwise nothing changes |
| L2TapSockets.FilterKeepsBalance | components/esp_netif/vfs_l2tap/esp_vfs_l2tap.c:242-246 | A non-empty frame with at most one taker is taken over once and then queued, or freed at once when the queue is full |
| L2TapSockets.RunsStayInOrder | components/esp_netif/vfs_l2tap/esp_vfs_l2tap.c:262-536 | Over every run of opens, closes, failed closes, filter changes, bindings before the filter, reads and frames above the length limit or with one taker: filters stay distinct and every buffer taken over is still queued or was freed, as often as it was taken |
| L2TapSockets.FramesComeInOrder | components/esp_netif/vfs_l2tap/esp_vfs_l2tap.c:104-184 | While a socket stays open, whatever else happens: what it held and what arrived since is, in the same order, what was read from it and what it still holds |
| L2TapSockets.TakenOnceFreedOnce | components/esp_netif/vfs_l2tap/esp_vfs_l2tap.c:120-199 | A buffer taken once is freed at most once, and is unfreed exactly while it is queued |
| L2TapSockets.AllFreedAtTheEnd | components/esp_netif/vfs_l2tap/esp_vfs_l2tap.c:191-199 | When all descriptors are closed, every buffer taken over was freed as often as it was taken |
| L2TapSockets.SetFilterKeepsDistinct | components/esp_netif/vfs_l2tap/esp_vfs_l2tap.c:510-537 | Setting a filter keeps (driver, filter) pairs distinct |
| L2TapSockets.SetFilterRefusedIff | components/esp_netif/vfs_l2tap/esp_vfs_l2tap.c:510-537 | EACCES exactly without a driver, EINVAL exactly when another open socket of the same driver has the filter; otherwise it is set, and no other socket changes |
| L2TapSockets.BoundTakesIff | components/esp_netif/vfs_l2tap/esp_vfs_l2tap.c:262-292 | A new socket takes no frame; bound, it takes exactly the length frames of its driver; binding keeps the filter of any socket |
| L2TapSockets.AbandonedIsLost | components/esp_netif/vfs_l2tap/esp_vfs_l2tap.c:478-490 | A descriptor whose close could not be finished stays closing over every run, with its queue, and is never opened again |
| L2TapSockets.RebindKeepsDistinctIff | components/esp_netif/vfs_l2tap/esp_vfs_l2tap.c:564-575 | Binding an open socket to another driver keeps them distinct if and only if its filter is still a length filter or no other open socket of that driver has it |
| L2TapSockets.BindKeepsDistinct | components/esp_netif/vfs_l2tap/esp_vfs_l2tap.c:543-575 | Binding before a filter is set keeps them distinct |
| L2TapSockets.PopKeeps | components/esp_netif/vfs_l2tap/esp_vfs_l2tap.c:120-184 | A read gives its buffer back once, keeps the ledger balanced and filters distinct, and leaves the rest of its queue as it was, with the close signal behind it when that was read |
| L2TapSockets.CloseKeeps | components/esp_netif/vfs_l2tap/esp_vfs_l2tap.c:191-199 | A close gives back every queued buffer |
| L2TapSockets.Table.OpenSocket | components/esp_netif/vfs_l2tap/esp_vfs_l2tap.c:262-292 | Opens the first descriptor that is ready, reset; fails exactly when there is none or its queue cannot be created, and then changes nothing |
| L2TapSockets.Table.CloseSocket | components/esp_netif/vfs_l2tap/esp_vfs_l2tap.c:468-498 | Refuses a descriptor that is not open; otherwise flushes its queue and makes it ready, or, when its semaphore or task cannot be created, leaves it closing with its queue |
| L2TapSockets.Table.FilterFrame | components/esp_netif/vfs_l2tap/esp_vfs_l2tap.c:223-259 | The loop over the descriptors is the table's filter step, and returns the size |
| L2TapSockets.Table.Read | components/esp_netif/vfs_l2tap/esp_vfs_l2tap.c:405-442 | EBADF, EINVAL, 0 and EFAULT exactly under their conditions; past these checks an empty queue gives EAGAIN or blocks, and otherwise the oldest entry is delivered: its buffer with the lesser of its length and the room, or the close signal, which is passed on |
| L2TapSockets.Table.IoctlSetFilter | components/esp_netif/vfs_l2tap/esp_vfs_l2tap.c:510-537 | Refused without a driver or when another open socket of the driver has the filter; nothing happens when it is the same |
| L2TapSockets.Table.IoctlSetDriver | components/esp_netif/vfs_l2tap/esp_vfs_l2tap.c:564-575 | Refused without a driver, otherwise bound |
| L2TapSockets.Table.IoctlSetInterface | components/esp_netif/vfs_l2tap/esp_vfs_l2tap.c:543-556 | Refused when no interface has the key; otherwise bound to its driver, be it NULL |
| L2TapSockets.Table.Handle | components/esp_netif/vfs_l2tap/esp_vfs_l2tap.c:223-578 | Every call does what one operation of the runs does, or nothing |
| L2TapSockets.HandleAll | components/esp_netif/vfs_l2tap/esp_vfs_l2tap.c:223-578 | The table after any calls is what a run of operations gives: its ledger is balanced exactly unless a frame met a late taker with a full queue, nothing is lost, and after a disciplined run its filters are distinct |
| L2TapClose.CloseHandshake | components/esp_netif/vfs_l2tap/esp_vfs_l2tap.c:444-498 | For any number n of readers, any queue, with empty entries left in it by frames with two takers or not, and any order of moves: at most 2n+5 moves; the queue is deleted only when all readers have returned, with every queued buffer freed; no empty entry is lost; a run that cannot go on has finished the close |
| L2TapClose.OnlyZeroAfterFlush | components/esp_netif/vfs_l2tap/esp_vfs_l2tap.c:130-137 | After the flush no reader returns a frame any more, only length 0 |
| L2TapClose.DataComesFromFrames | components/esp_netif/vfs_l2tap/esp_vfs_l2tap.c:126-184 | Every reader that returns with data got a queued frame of its own: until the flush readers with data and frames left make up the frames there were |
| L2TapClose.StepInv | components/esp_netif/vfs_l2tap/esp_vfs_l2tap.c:444-459 | Behind the flush exactly one empty entry is on its way from reader to reader until the clean task takes it; before it each reader with one has a place in the queue to pass it on |
| L2TapClose.StepShrinksWork | components/esp_netif/vfs_l2tap/esp_vfs_l2tap.c:444-466 | Every move makes the work left smaller |
| L2TapClose.SomeoneCanMove | components/esp_netif/vfs_l2tap/esp_vfs_l2tap.c:483-492 | Until close returns, some task can move |
| L2TapRecords.AlignIsLeastMultiple | components/esp_netif/include/esp_vfs_l2tap.h:87-87 | The aligned size is the least multiple of 8 not below the size, while the 32-bit sum does not wrap |
| L2TapRecords.AlignWraps | components/esp_netif/include/esp_vfs_l2tap.h:87-87 | It is below the size if and only if the sum wraps |
| L2TapRecords.StepIff | components/esp_netif/include/esp_vfs_l2tap.h:92-96 | With 32-bit sums: from a record in the buffer the macro leads further on in the buffer, or to the end, if and only if the aligned length is positive and behind it the address space has room for another header, or ends exactly |
| L2TapRecords.StandsStillIff | components/esp_netif/include/esp_vfs_l2tap.h:92-96 | A record leads to itself if and only if its header ends in front of the end and its aligned length is 0, by the length itself or by the wrap of the sum |
| L2TapRecords.WalkEndsWellIff | components/esp_netif/include/esp_vfs_l2tap.h:91-96 | The walk over a buffer of any content goes only forward, stays in the buffer and ends, if and only if every record it visits has such a length |
| L2TapRecords.WalkCanCycle | components/esp_netif/include/esp_vfs_l2tap.h:92-96 | Otherwise it need not end although no record leads to itself: with lengths 16 and 2^32 - 16 it goes round for ever |
| L2TapRecords.FilledIff | components/esp_netif/include/esp_vfs_l2tap.h:91-96 | It does so if and only if records fill the buffer: one behind the other from its start, each with such a length, the last one too, and no room for a header behind the last |
| L2TapRecords.NextIsNextRecord | components/esp_netif/include/esp_vfs_l2tap.h:92-96 | In a buffer filled by records, with or without bytes left behind them, each record leads to the next and the last to the end |
| L2TapRecords.FirstIsFirstRecord | components/esp_netif/include/esp_vfs_l2tap.h:91-91 | The walk starts at the first record, or nowhere when there is none |
| L2TapRecords.WalkVisitsEveryRecord | components/esp_netif/include/esp_vfs_l2tap.h:91-96 | The walk over such a buffer is after k steps at record k, and at the end after the last |
| L2TapRecords.EndsWellIff | components/esp_netif/vfs_l2tap/esp_vfs_l2tap.c:151-158 | The search for a type, in a buffer of any content, stops after steps that all went forward inside the buffer, if and only if every record it goes past has a length that leads forward |
| L2TapRecords.ExtendedBuffer.FindTimeStampRecord | components/esp_netif/vfs_l2tap/esp_vfs_l2tap.c:151-158 | On every buffer on which the search ends: the first time-stamp record of the walk, or NULL when there is none |
| L2TapRecords.ExtendedBuffer.StoreTimeStamp | components/esp_netif/vfs_l2tap/esp_vfs_l2tap.c:159-168 | For a length of at least 24, or below 8, where the difference wraps: seconds and nanoseconds are written behind the header, whatever lies there, and everything else is kept; otherwise the record is marked invalid |
| L2TapRecords.StampInsideIff | components/esp_netif/vfs_l2tap/esp_vfs_l2tap.c:160-163 | The stamp lies in its record and in the buffer if and only if the length is at least 24 and 24 bytes from the header on belong to the buffer |
| L2TapRecords.StampKeepsRecordsIff | components/esp_netif/vfs_l2tap/esp_vfs_l2tap.c:160-163 | After a stamp was stored the records are as before if and only if its record has room for it, or is the last, or the stamp repeats the headers it overwrites |
| L2TapRecords.MarkKeepsRecords | components/esp_netif/vfs_l2tap/esp_vfs_l2tap.c:165-167 | After a record was marked invalid the walk finds the same records |
| NetifList.RunsStayConsistent | components/esp_netif/lwip/esp_netif_lwip.c:768-863 | Over any run of creations and destructions listed handles and their keys stay pairwise distinct |
| NetifList.DoKeepsConsistent | components/esp_netif/lwip/esp_netif_lwip.c:1012-1034 | One creation (refused for a key in use, undone when its configuration fails) or destruction keeps that |
| NetifList.CreatedIff | components/esp_netif/lwip/esp_netif_lwip.c:768-863 | An object is created, with its key, if and only if there is memory for it, the key is free and its configuration succeeds |
| NetifList.NextStepsThrough | components/esp_netif/esp_netif_objects.c:81-98 | Next, which searches from the head every time, leads from each interface to the one behind it |
| NetifList.List.Add | components/esp_netif/esp_netif_objects.c:35-49 | The new interface is the head; the counter grows by one |
| NetifList.List.Remove | components/esp_netif/esp_netif_objects.c:51-67 | The first item of the handle is unlinked in place; the counter shrinks by one exactly when there was one |
| NetifList.List.Unlink | components/esp_netif/esp_netif_objects.c:57-60 | One item leaves the linked list, at its head or behind another, and the order of the others stays |
| NetifList.List.Next | components/esp_netif/esp_netif_objects.c:81-98 | The interface behind a given one, the head for NULL, NULL behind the last or for an unlisted one |
| NetifList.List.IsListed | components/esp_netif/esp_netif_objects.c:100-109 | Whether an interface is in the list |
| NetifList.List.Walk | components/esp_netif/lwip/esp_netif_lwip.c:354-367 | Repeated next visits every interface exactly once, in list order, as many as the counter says, and ends |
| NetifList.Interfaces.FindByKey | components/esp_netif/esp_netif_objects.c:111-123 | The first interface with the key, or NULL |
| NetifList.Interfaces.Create | components/esp_netif/lwip/esp_netif_lwip.c:768-863 | The list afterwards, the counter, and NULL exactly when the key was in use or the configuration failed |
| NetifList.Interfaces.Destroy | components/esp_netif/lwip/esp_netif_lwip.c:1012-1034 | The list without the interface, with the counter equal to its length |
| DefaultRoute.DefaultIsArgmax | components/esp_netif/lwip/esp_netif_lwip.c:312-375 | After every run, manual overrides and their end included: while none is in force the default is the argmax of route priority over the interfaces that are up (NULL if and only if none is) if and only if no interface that has not been considered since it came up outranks all that have; a manual default is always listed |
| DefaultRoute.PromptRunsChooseArgmax | components/esp_netif/lwip/esp_netif_lwip.c:331-372 | When every start is reported at once, the default is that argmax after every run, whenever no override is in force |
| DefaultRoute.WaitingInterfaceIsOverlooked | components/esp_netif/lwip/esp_netif_lwip.c:1826-1829 | A DHCP interface that is up without a lease: no default although an interface is up |
| DefaultRoute.ScanFindsTheLead | components/esp_netif/lwip/esp_netif_lwip.c:350-371 | The rescan finds nothing exactly when nothing is up, and otherwise the highest priority, among equals the one nearest the head |
| DefaultRoute.UpdateInv | components/esp_netif/lwip/esp_netif_lwip.c:320-375 | Every report keeps the default at least as good as every reported interface |
| DefaultRoute.LatestReportWinsTies | components/esp_netif/lwip/esp_netif_lwip.c:334-347 | The interface reported last becomes the default unless a listed one that is up has a strictly higher priority |
| DefaultRoute.OverrideStays | components/esp_netif/lwip/esp_netif_lwip.c:320-335 | A manual choice survives every run without another choice and without the destruction of its interface |
| DefaultRoute.LastChoiceIsDefault | components/esp_netif/lwip/esp_netif_lwip.c:320-335 | After every run: an override is in force if and only if the interface chosen last was not destroyed since, and then that interface is the default |
| DefaultRoute.EventsConsider | components/esp_netif/lwip/esp_netif_lwip.c:320-375 | After a report or a lease the interface has been considered; a stop, a lost lease or a destruction makes the default the argmax |
| DefaultRoute.EventsChange | components/esp_netif/lwip/esp_netif_lwip.c:312-375 | Priorities and the interfaces that are up change as the events say |
| DefaultRoute.ReportOfDownIsIgnored | components/esp_netif/lwip/esp_netif_lwip.c:336-347 | A report of an interface that is not up only drops a default that is no longer listed |
| DefaultRoute.DestroyEndsOverride | components/esp_netif/lwip/esp_netif_lwip.c:320-328 | Destroying the chosen interface ends the override, and the argmax over the rest takes over |
| DefaultRoute.Router.Rescan | components/esp_netif/lwip/esp_netif_lwip.c:350-371 | The loop over next leaves the default that a scan of the whole list gives, whatever it was before |
| DefaultRoute.Router.UpdateDefault | components/esp_netif/lwip/esp_netif_lwip.c:312-375 | One report changes the two static variables as the incremental choice says, and nothing else |
| DefaultRoute.Router.Handle | components/esp_netif/lwip/esp_netif_lwip.c:312-375 | Every change of the platform updates list and static variables as the step on values says |
| DefaultRoute.HandleAll | components/esp_netif/lwip/esp_netif_lwip.c:312-375 | The router after any changes: the last manual choice that still exists is its default; without one it holds the argmax, exactly unless an interface that was not considered outranks all that were |
| IpEvents.ReportsAreTruthful | components/esp_netif/lwip/esp_netif_lwip.c:1414-1545 | After every run: the stored old address is what the application was told last (at first the configured one, none after a loss); each GOT_IP says "changed" exactly when its address is not the one told before; at most one lost timeout is set |
| IpEvents.AddressInUseWasReported | components/esp_netif/esp_netif_handlers.c:38-95 | On the Ethernet port, after every run in which configured addresses have a mask: while an address is in use the last report is GOT_IP with that address |
| IpEvents.LinkUpIsReportedIff | components/esp_netif/esp_netif_handlers.c:67-90 | A static address that a link-up takes into use has been reported afterwards if and only if it has a mask or was the address reported last before |
| IpEvents.UnreportedIff | components/esp_netif/esp_netif_handlers.c:38-95 | On the Ethernet port, after every run, with any addresses configured: the address in use is not the one reported last if and only if a link-up that took a maskless address into use unreported came after the last link-down, start of DHCP and accepted configuration |
| IpEvents.MasklessAddressIsNotReported | components/esp_netif/esp_netif_handlers.c:67-90 | Such a run: an address without a mask that is stored while the link is down is used and never reported |
| IpEvents.StaticAddressReportedOnce | components/esp_netif/lwip/esp_netif_lwip.c:1967-2023 | Setting an address on an interface that is up reports it exactly once with the IP-modified flag, despite the callback from inside lwIP, and not at all without the flag or when it is cleared; clearing starts no lost timer |
| IpEvents.LossOnlyWithoutAddress | components/esp_netif/lwip/esp_netif_lwip.c:1483-1520 | LOST_IP is reported by every lost timeout that finds no address, and by nothing else |
| IpEvents.LossSetsTimerIff | components/esp_netif/lwip/esp_netif_lwip.c:1470-1545 | After any operation that takes the address away a lost timeout is set if and only if one was set already or the operation starts it: every one but clearing a static address, and a link-up or lease end with nothing stored |
| IpEvents.LossIsReported | components/esp_netif/lwip/esp_netif_lwip.c:1483-1545 | After every run: such a loss, and no address when the timeout comes, whatever happens in between: LOST_IP is reported and the old address forgotten |
| IpEvents.LeaseAfterLossIsReported | components/esp_netif/lwip/esp_netif_lwip.c:1483-1515 | With a running DHCP client the next lease is then reported as a change, be it of the same address |
| IpEvents.StaticIsKept | components/esp_netif/lwip/esp_netif_lwip.c:1505-1508 | A static address outlives every loss: over any run without another configuration it stays stored and each link-up takes it into use again |
| IpEvents.ConfigureIff | components/esp_netif/lwip/esp_netif_lwip.c:1967-2023 | A static configuration changes nothing while a DHCP service runs; otherwise it is stored, and in use when the interface is up |
| IpEvents.StopEffect | components/esp_netif/lwip/esp_netif_lwip.c:1547-1582 | Stopping DHCP forgets the stored address and removes the one in use exactly when the client supplied it |
| IpEvents.StartsWithTheLink | components/esp_netif/lwip/esp_netif_lwip.c:1599-1647 | A DHCP start forgets the stored address; on an interface that is down the client starts with the next link-up; it runs exactly when lwIP could start it |
| IpEvents.DownEffect | components/esp_netif/lwip/esp_netif_lwip.c:1836-1885 | A link-down leaves no address in use and no running client |
| IpEvents.SetAddrReports | components/esp_netif/lwip/esp_netif_lwip.c:1414-1481 | What the callback reports for an address lwIP sets: once when it is new to esp_netif, else nothing |
| IpEvents.StepInv | components/esp_netif/lwip/esp_netif_lwip.c:1414-1660 | Every operation keeps the record of reports right |
| IpEvents.StepComplete | components/esp_netif/lwip/esp_netif_lwip.c:1807-1885 | Every operation keeps the address in use the one reported last |
| IpEvents.Interface.InternalCallback | components/esp_netif/lwip/esp_netif_lwip.c:1414-1481 | In place: stored address, old address, timer and reports become what the callback step says, of which the run theorems speak |
| IpEvents.Interface.LostTimer | components/esp_netif/lwip/esp_netif_lwip.c:1483-1520 | In place: without an address the old one is forgotten and a loss reported; with one only the timer flag changes |
| IpEvents.Interface.NetifSetAddr | components/lwip/lwip/src/core/netif.c:687-762 | One callback after all three fields are set, only when one changed |
| IpEvents.Interface.SetInfo | components/esp_netif/lwip/esp_netif_lwip.c:1967-2023 | Refused while a DHCP service runs; otherwise stores, sets and reports |
| IpEvents.Interface.DhcpcStopApi | components/esp_netif/lwip/esp_netif_lwip.c:1547-1582 | In place: the stored address is dropped, the lost timer started and the client stopped; a stopped client is refused |
| IpEvents.Interface.DhcpcStartApi | components/esp_netif/lwip/esp_netif_lwip.c:1599-1647 | In place: addresses are cleared without a callback and the lost timer started; the status that success, failure or a link that is down leaves |
| IpEvents.Interface.ActionConnected | components/esp_netif/esp_netif_handlers.c:38-95 | In place: the stored address goes into use, then the DHCP client starts, or a valid static address is reported |
| IpEvents.Interface.DownApi | components/esp_netif/lwip/esp_netif_lwip.c:1836-1885 | In place: DHCP is stopped, the address cleared through lwIP, and for a DHCP interface the lost timer started |
| IpEvents.Interface.Handle | components/esp_netif/lwip/esp_netif_lwip.c:1414-2023 | Every event changes the object as the step on values says, of which the run theorems speak |
| IpEvents.HandleAll | components/esp_netif/lwip/esp_netif_lwip.c:1414-2023 | The object after any events: its reports are truthful with at most one lost timeout set, and on the Ethernet port the address in use is the one reported last exactly unless a silent link-up came last |
| DhcpPool.Server.SetPool | components/esp_netif/lwip/esp_netif_lwip.c:2506-2546 | A pool is accepted if and only if it is off or good: each of its addresses a host of the range other than the server, 2 to 100 of them, and the server itself a host; only an accepted pool is stored |
| DhcpPool.Server.Check | components/esp_netif/lwip/esp_netif_lwip.c:2514-2543 | The comparisons of the source decide exactly whether the pool is good |
| DhcpPool.SizeCheckIsExactIff | components/esp_netif/lwip/esp_netif_lwip.c:2540-2543 | The size check alone, with its 32-bit sum, is right for a pool if and only if it is not the pool of all addresses |
| DhcpPool.GoodPoolIsInSubnet | components/esp_netif/lwip/esp_netif_lwip.c:2532-2538 | Behind a contiguous mask every address of an accepted pool is in the server's subnet and is not its network, broadcast or own address |
| DhcpPool.RangeIsSubnetIff | components/esp_netif/lwip/esp_netif_lwip.c:2518-2519 | For every server, all addresses between network and broadcast are in the subnet, if and only if the mask is contiguous |
| LogBuffer.KeptIsEndOfStream | components/log_buffer/log_buffer.c:57-75 | Keeping the end after every write or clear is keeping the end of all that was written since the last clear |
| LogBuffer.CapturedIsPrefix | components/log_buffer/log_buffer.c:51-55 | Of a message the first 511 characters reach the ring |
| LogBuffer.SomeRunLeavesIff | components/log_buffer/log_buffer.c:58-98 | For every requested size: some run of messages and clears makes a copy that leaves the ring if and only if the size is below one captured message (511 characters) and not 0, which stands for the default |
| LogBuffer.FitsEffect | components/log_buffer/log_buffer.c:61-64 | A write that fits: the text the ring stands for becomes the end of the old text and the new part |
| LogBuffer.WrapsEffect | components/log_buffer/log_buffer.c:65-72 | A write over the end of a ring of any size that stays inside it: the same, with the oldest characters overwritten, the message's own when it is longer than the ring |
| LogBuffer.Ring.Write | components/log_buffer/log_buffer.c:45-79 | For a ring of any size: the copies stay inside exactly when position and captured message together are at most twice the size; the ring then stands for the last size characters of its old text and the captured message |
| LogBuffer.Ring.Get | components/log_buffer/log_buffer.c:132-192 | For any capacity: the first min(stored, capacity - 1) characters, then the terminator, and the rest of the destination untouched |
| LogBuffer.Ring.GetSize | components/log_buffer/log_buffer.c:194-213 | The number of characters the ring stands for |
| LogBuffer.Ring.ClearAll | components/log_buffer/log_buffer.c:215-229 | Nothing is left |
| LogBuffer.Replay | components/log_buffer/log_buffer.c:45-229 | For every requested size and every run of messages and clears: unless a copy leaves the ring, which is decided exactly, it stands for the last min(total, size) characters since the last clear |
| ModbusRegisters.ReadBackIsSwapped | components/modbus_tcp/src/modbus_register_map.c:195-253 | Reading a written range back gives each register with its bytes exchanged, since the write swaps once too often |
| ModbusRegisters.ReadBackUnchangedIff | components/modbus_tcp/src/modbus_register_map.c:195-253 | It reads back unchanged if and only if both bytes of every register are equal |
| ModbusRegisters.SecondRoundRestores | components/modbus_tcp/src/modbus_register_map.c:111-253 | Writing back what was read and reading again gives the original data |
| ModbusRegisters.DocumentedOrderRoundTrip | README.md:237 | The documented storage order, one swap less, is a true round trip |
| ModbusRegisters.WriteIsLocal | components/modbus_tcp/src/modbus_register_map.c:208-218 | Registers outside the written range keep their value |
| ModbusRegisters.WriteHoldingEffect | components/modbus_tcp/src/modbus_register_map.c:195-253 | A write stores the two bytes of each register exchanged and leaves every other holding register as it was |
| ModbusRegisters.RangesIff | components/modbus_tcp/src/modbus_register_map.c:68-124 | The checks admit exactly the ranges in which every register exists: inputs 0 to 15, holding registers 100 to 115 and 150 to 154 |
| ModbusRegisters.AnswerMeaning | components/modbus_tcp/src/modbus_register_map.c:126-143 | Each register is answered high byte first |
| ModbusRegisters.RegisterMap.ReadInput | components/modbus_tcp/src/modbus_register_map.c:68-109 | Accepted exactly in range with the mutex there; then the range is answered into the buffer and nothing else changes |
| ModbusRegisters.RegisterMap.ReadHolding | components/modbus_tcp/src/modbus_register_map.c:111-186 | The same for the two holding ranges |
| ModbusRegisters.RegisterMap.WriteMultiple | components/modbus_tcp/src/modbus_register_map.c:195-253 | Accepted exactly in range; then only the addressed range of one assembly changes, otherwise nothing |
| ModbusRegisters.RegisterMap.WriteSingle | components/modbus_tcp/src/modbus_register_map.c:188-193 | The same for one register |
| ModbusServer.ReplyIsWellFormed | components/modbus_tcp/src/modbus_protocol.c:55-276 | Every reply echoes transaction and unit, has protocol 0, a length field equal to the bytes behind it and at most 41 bytes; it is a normal reply to the same function, below 0x80, or a flagged exception of 9 bytes with code 1 to 3 |
| ModbusServer.AcceptedQuantityFits | components/modbus_tcp/src/modbus_protocol.c:82-126 | Accepted quantities keep the reply within its 256-byte buffer although the protocol check lets 125 through |
| ModbusServer.OnlyAcceptedWritesChange | components/modbus_tcp/src/modbus_protocol.c:184-276 | A refused request changes no register; an accepted write changes one assembly only |
| ModbusServer.ReadCarriesRegisters | components/modbus_tcp/src/modbus_protocol.c:72-182 | The i-th value in the reply to an accepted read, of holding or of input registers, is the i-th register asked for, high byte first, and the reply holds exactly those |
| ModbusServer.WrittenIsReadSwapped | components/modbus_tcp/src/modbus_protocol.c:184-276 | Over the wire: a read of the registers an accepted write, of one or of several, has just written is accepted and carries the data sent with the bytes of every register exchanged |
| ModbusServer.WriteStores | components/modbus_tcp/src/modbus_protocol.c:184-276 | After an accepted write of either kind each register it names holds the bytes sent for it, exchanged, and every other holding register what it held |
| ModbusServer.WriteIsEchoed | components/modbus_tcp/src/modbus_protocol.c:205-225 | Its reply repeats function, address and value or quantity |
| ModbusServer.AnswersIff | components/modbus_tcp/src/modbus_protocol.c:72-276 | A request is answered normally if and only if it is an accepted read or write; the exception is 1 for an unknown function, 3 for malformed data, 2 for registers that do not exist or cannot be reached |
| ModbusServer.RefusalIsSent | components/modbus_tcp/src/modbus_protocol.c:55-70 | The frame for any other request: nine bytes, the function with its highest bit set, and that code |
| ModbusServer.GatherIgnoresSplit | components/modbus_tcp/src/modbus_protocol.c:311-327 | However recv splits the body, the bytes gathered are the next bytes of the stream |
| ModbusServer.GatherCompletes | components/modbus_tcp/src/modbus_protocol.c:311-327 | A body that arrives, with nothing but would-block in between, is gathered whole |
| ModbusServer.RequestIsNextInStream | components/modbus_tcp/src/modbus_protocol.c:280-336 | A request is exactly what the stream says, and the next one starts right behind it |
| ModbusServer.WholeRequestsAreGot | components/modbus_tcp/src/modbus_protocol.c:280-331 | A valid header received whole and a body that arrives make a request |
| ModbusServer.NoBytesIff | components/modbus_tcp/src/modbus_protocol.c:284-290 | A call without a byte closes the connection exactly when the peer closed or reset it |
| ModbusServer.ValidHeaderIff | components/modbus_tcp/src/modbus_protocol.c:296-303 | A header is valid exactly with protocol 0 and a length of 2 to 253, high byte first |
| ModbusServer.SessionIsInStream | components/modbus_tcp/src/modbus_protocol.c:278-331 | For a whole connection that hands out no header in pieces: the requests of its stream are, in order, those the server takes and those that were left when it closed |
| ModbusServer.WholeStreamIsServed | components/modbus_tcp/src/modbus_protocol.c:278-331 | The server takes all of them, unless the peer closed in front of one or its body did not arrive |
| ModbusServer.IdleKeepsStreamIff | components/modbus_tcp/src/modbus_protocol.c:284-295 | A call without a request that keeps the connection open has taken nothing from the stream if and only if it did not get a part of a header |
| ModbusServer.SplitHeaderIsDropped | components/modbus_tcp/src/modbus_protocol.c:293-295 | Such a part is dropped, and the next call looks for a header behind it |
| ModbusServer.Server.SendException | components/modbus_tcp/src/modbus_protocol.c:55-70 | Exactly one frame with the flagged function code and the exception code, its length field right |
| ModbusServer.Server.HandleRead | components/modbus_tcp/src/modbus_protocol.c:72-182 | Exactly one frame is sent: the registers asked for, or the exception that the checks give in their order; no register changes |
| ModbusServer.Server.HandleWriteSingle | components/modbus_tcp/src/modbus_protocol.c:184-225 | Exactly one frame is sent, echo or exception; the addressed register changes exactly when it is the echo |
| ModbusServer.Server.HandleWriteMultiple | components/modbus_tcp/src/modbus_protocol.c:227-276 | Exactly one frame is sent, echo or exception; the addressed registers change exactly when it is the echo |
| ModbusServer.Server.ReceiveBody | components/modbus_tcp/src/modbus_protocol.c:311-331 | For every way recv splits the body: the bytes gathered, or a broken connection, and what is left of the stream |
| ModbusServer.Server.HandleRequest | components/modbus_tcp/src/modbus_protocol.c:278-359 | One call: without a request nothing is sent or changed and the connection is kept or closed as the source says; with one, exactly its reply is sent and the registers become what it means |
| ModbusServer.Server.ServeConnection | components/modbus_tcp/src/modbus_tcp.c:117-127 | Over a whole connection the frames sent are the replies to the requests taken, in order, each in the registers the earlier ones left, and the registers are what all of them leave |
| ComplementaryFilter.AngleIsBounded | components/lsm6ds3/lsm6ds3_fusion.c:236-273 | From rest, with alpha below 1, tilts within A and turns within R: every angle is at most A + alpha R / (1 - alpha), plus R for every update without an accelerometer vector |
| ComplementaryFilter.ReachIsLeastBound | components/lsm6ds3/lsm6ds3_fusion.c:262-263 | That bound is the best: of runs that always sense the tilt, exactly the numbers from it on are bounds |
| ComplementaryFilter.ReachIsApproached | components/lsm6ds3/lsm6ds3_fusion.c:262-263 | Under the largest inputs the distance to it is alpha^k times the first distance |
| ComplementaryFilter.BoundedIffBelowOne | components/lsm6ds3/lsm6ds3_fusion.c:212-234 | For every alpha that is accepted, runs that sense the tilt have a bound if and only if alpha is below 1 |
| ComplementaryFilter.AlphaOneDrifts | components/lsm6ds3/lsm6ds3_fusion.c:219-221 | With alpha 1 the angle is the first tilt plus all turns |
| ComplementaryFilter.DifferenceShrinks | components/lsm6ds3/lsm6ds3_fusion.c:249-270 | Two runs on the same inputs from different angles differ by alpha^k times the first difference after k updates that sense the tilt; others leave it |
| ComplementaryFilter.AnglesAreSeparate | components/lsm6ds3/lsm6ds3_fusion.c:245-271 | Roll depends on roll rate and tilt only, pitch on its own; without a tilt an angle turns by its own rate, and a filter that has not started stays |
| ComplementaryFilter.Filter.Init | components/lsm6ds3/lsm6ds3_fusion.c:212-234 | Accepts alpha in [0, 1] and rates in (0, 10000], and resets; otherwise nothing changes |
| ComplementaryFilter.Filter.Update | components/lsm6ds3/lsm6ds3_fusion.c:236-273 | Refuses dt outside (0, 1]; otherwise both angles make their step |
| LoadCell.GetAverage | components/nau7802/nau7802.c:513-540 | For up to 255 samples and any 24-bit readings the 32-bit sum does not overflow; the result is the mean rounded toward zero and lies between the least and greatest sample; 0 without samples |
| LoadCell.MeanIsBetween | components/nau7802/nau7802.c:535-539 | The truncated mean lies between the bounds of the samples, and misses the mean by less than 1, toward zero |
| LoadCell.CollectTakesShortest | components/nau7802/nau7802.c:519-533 | The samples are the readings of the shortest beginning of the polls that brings all samples or ends late |
| LoadCell.ElapsedIsRightIff | components/nau7802/nau7802.c:517-527 | The elapsed time is right across wraps of tick and millisecond counters if and only if it is below 2^32 ms |
| LoadCell.ReadBack | components/nau7802/nau7802.c:864-898 | Writing and reading a 24-bit register gives the number of 24 bits equal to the value modulo 2^24: the value itself if and only if it is in [-2^23, 2^23) |
| LoadCell.WriteBack | components/nau7802/nau7802.c:864-898 | Writing back what was read restores the three bytes |
| LoadCell.ValueIs | components/nau7802/nau7802.c:864-880 | Three registers read are a number in two's complement, most significant byte first |
| LoadCell.BytesAre | components/nau7802/nau7802.c:882-898 | Three registers written are those of the number |
| LoadCell.SumIsBetween | components/nau7802/nau7802.c:515-523 | The sum of n samples lies between n times their bounds |
| LoadCell.Converter.Set24 | components/nau7802/nau7802.c:882-898 | Three registers change, or none when the transfer fails |
| LoadCell.Converter.Get24 | components/nau7802/nau7802.c:864-880 | The signed value of three registers, 0 when the transfer fails |
| McpTable.RunsRefineMap | components/system_config/mcp_config.c:189-236 | After any run of saves and deletes the stored table is the finite map the run builds, with distinct addresses and at most 8 of them |
| McpTable.SaveRefines | components/system_config/mcp_config.c:189-214 | A save updates the map, unless the address is new and 8 are stored |
| McpTable.DeleteRefines | components/system_config/mcp_config.c:216-236 | A delete removes the address from the map, also when the last one leaves its blob behind |
| McpTable.LoadIsTable | components/system_config/mcp_config.c:63-123 | Loading finds exactly the table, and fails if and only if the map is empty, be it new or emptied |
| McpTable.Config.FindDevice | components/system_config/mcp_config.c:238-251 | The first device of the address, or none |
| McpTable.Config.Put | components/system_config/mcp_config.c:198-211 | Overwrites the device of the address or appends it; false exactly when it is new and the array is full |
| McpTable.Config.Remove | components/system_config/mcp_config.c:224-230 | The shift loop removes one device and keeps the order of the others |
| McpTable.Store.LoadAll | components/system_config/mcp_config.c:63-123 | The array holds the table, or the count is 0 exactly when loading fails |
| McpTable.Store.SaveAll | components/system_config/mcp_config.c:125-167 | The count blob always, the device blob only when there is a device |
| McpTable.Store.LoadDevice | components/system_config/mcp_config.c:169-187 | What the map holds at the address |
| McpTable.Store.SaveDeviceApi | components/system_config/mcp_config.c:189-214 | Succeeds exactly when the map has the address or room |
| McpTable.Store.DeleteDeviceApi | components/system_config/mcp_config.c:216-236 | Succeeds exactly when the map has the address |
| McpTable.HandleAll | components/system_config/mcp_config.c:189-236 | The store after any saves and deletes holds the map that they build |

## Left out

- AcdModel: a second configuration at run time, DHCP and AutoIP fallbacks, `select_acd` off, and failure to create the retry timer.
- AcdModel: `tcpip_acd_start_cb` as a fallback for failed registration, since `acd_add` and `acd_start` cannot fail; the passive engine state, which only a link-local address change reaches.
- AcdModel: the address that `esp_netif_up_api` restores after link down and up; there the stored address comes back without a new probe.
- AcdModel: the leak of the start context on the already-registered path, the LED and log output.
- L2TapSockets.Table.FilterFrame: a close that interrupts the loop between its check of the state and its push.
- L2TapRecords.ExtendedBuffer.StoreTimeStamp: the frame data around the records; a fault of the processor when a walk or a store has left the buffer.
- L2TapClose.CloseHandshake: frames pushed by a driver that had passed the state check before close began.
- The select registry of L2 TAP, `l2tap_write` beyond its record search, `fcntl`.
- DefaultRoute.Router.UpdateDefault: lwIP's own default interface, which keeps its last value when nothing is up, and DNS servers per interface.
- IpEvents.Interface.ActionConnected: steps of other tasks between the calls it makes, which could report an address that was just replaced.
- IpEvents: stopping an interface (`esp_netif_stop_api`), its destruction with a timeout pending, PPP and IPv6.
- DhcpPool.Server.SetPool: the other DHCP options, and the missing-option error.
- LogBuffer.Ring.Write: what the memory holds after a copy that left the ring; the model stops before it.
- LogBuffer: `vsnprintf` itself, the mutex, a failed allocation and the switch that enables the buffer.
- ModbusServer.SessionIsInStream: connections that hand out a header in pieces, whose first piece the source drops (`ModbusServer.SplitHeaderIsDropped`).
- ModbusServer.Server.ServeConnection: several connections served in turn, the accept loop, and failing sends.
- ModbusRegisters: readers and writers of the assemblies other than Modbus.
- ComplementaryFilter: float rounding, trigonometry, the Madgwick filter, angle zeroing.
- LoadCell.GetAverage: a converter that never becomes available without a timeout, for which the source loops for ever; here the loop is still waiting when its polls end.
- LoadCell: calibration, weight in units, and the bit setters.
- McpTable: NVS failures, the legacy pin mappings of a device, and the list of detected devices.
- Heap exhaustion outside the ACD start, OTA, web interface, EtherNet/IP stack, sensor drivers and scaling, PPP, SNTP, bridge and loopback interfaces.
