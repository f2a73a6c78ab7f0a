/**
  The socket table of the L2 TAP virtual file system (esp_vfs_l2tap.c): which socket a received frame goes to,
  who owns its buffer, and which filters may coexist. Each operation runs to completion before the next starts;
  the close handshake with blocked readers is the subject of L2TapClose.
*/
module L2TapSockets {
  import opened Options

  // The address of a received frame's buffer.
  type Buffer = nat
  type EtherType = t: nat | t < 0x1_0000
  // An I/O driver handle; 0 is NULL.
  type Driver = nat

  const ETH_IEEE802_3_MAX_LEN: nat := 1500

  datatype State = Ready | Opened | Closing

  // A queued frame. A length of 0 marks the close signal, whose buffer is not owned by the queue.
  datatype Entry = Entry(buff: Option<Buffer>, len: nat)

  datatype Socket = Socket(
    state: State,
    nonBlock: bool,
    timeStamp: bool,
    driver: Driver,
    filter: EtherType,
    queue: seq<Entry>)

  datatype Errno = EBADF | EINVAL | EFAULT | EAGAIN | EACCES | ENODEV

  // ---- Demultiplexing -----------------------------------------------------

  predicate Matches(s: Socket, driver: Driver, ethType: EtherType) {
    && s.state.Opened?
    && s.driver == driver
    && (s.filter == ethType || (s.filter <= ETH_IEEE802_3_MAX_LEN && ethType <= ETH_IEEE802_3_MAX_LEN))
  }

  ghost predicate SomeMatch(socks: seq<Socket>, driver: Driver, ethType: EtherType) {
    exists i :: 0 <= i < |socks| && Matches(socks[i], driver, ethType)
  }

  ghost predicate AtMostOneMatch(socks: seq<Socket>, driver: Driver, ethType: EtherType) {
    forall i, j :: 0 <= i < j < |socks| ==> !(Matches(socks[i], driver, ethType) && Matches(socks[j], driver, ethType))
  }

  // push_rx_queue, tail drop included
  function Deliver(s: Socket, buff: Buffer, len: nat, capacity: nat): Socket {
    if |s.queue| < capacity then s.(queue := s.queue + [Entry(Some(buff), len)]) else s
  }

  // ---- Ownership ----------------------------------------------------------

  // What a queued entry makes the queue own.
  ghost function Owned(e: Entry): multiset<Buffer> {
    if e.len > 0 && e.buff.Some? then multiset{e.buff.value} else multiset{}
  }

  // The buffers a queue still has to free.
  ghost function Held(queue: seq<Entry>): multiset<Buffer> {
    if queue == [] then multiset{} else Held(queue[..|queue| - 1]) + Owned(queue[|queue| - 1])
  }

  ghost function HeldByAll(socks: seq<Socket>): multiset<Buffer> {
    if socks == [] then multiset{} else HeldByAll(socks[..|socks| - 1]) + Held(socks[|socks| - 1].queue)
  }

  lemma HeldPush(queue: seq<Entry>, e: Entry)
    ensures Held(queue + [e]) == Held(queue) + Owned(e)
  {
    assert (queue + [e])[..|queue|] == queue;
  }

  lemma {:induction false} HeldPop(queue: seq<Entry>)
    requires queue != []
    ensures Held(queue) == Owned(queue[0]) + Held(queue[1..])
  {
    hide Owned;
    var init, last := queue[..|queue| - 1], queue[|queue| - 1];
    if init == [] {
      assert queue[1..] == [];
    } else {
      HeldPop(init);
      assert queue[1..] == init[1..] + [last];
      HeldPush(init[1..], last);
    }
  }

  // Replacing one socket changes what is held by the difference of its queues.
  lemma {:induction false} HeldReplace(socks: seq<Socket>, i: nat, s: Socket)
    requires i < |socks|
    ensures HeldByAll(socks[i := s]) + Held(socks[i].queue) == HeldByAll(socks) + Held(s.queue)
  {
    hide Held;
    var n := |socks| - 1;
    var after := socks[i := s];
    if i == n {
      assert after[..n] == socks[..n];
    } else {
      HeldReplace(socks[..n], i, s);
      assert after[..n] == socks[..n][i := s];
      Regroup(HeldByAll(after[..n]), Held(socks[i].queue), HeldByAll(socks[..n]), Held(s.queue), Held(socks[n].queue));
    }
  }

  lemma Regroup(a: multiset<Buffer>, x: multiset<Buffer>, b: multiset<Buffer>, y: multiset<Buffer>, more: multiset<Buffer>)
    requires a + x == b + y
    ensures (a + more) + x == (b + more) + y
  {
    assert (a + more) + x == (a + x) + more;
    assert (b + more) + y == (b + y) + more;
  }

  // ---- Filters ------------------------------------------------------------

  // No two open sockets of one driver share a filter above the 802.3 limit.
  ghost predicate DistinctFilters(socks: seq<Socket>) {
    forall i, j :: 0 <= i < j < |socks| && socks[i].state.Opened? && socks[j].state.Opened?
                   && socks[i].driver == socks[j].driver != 0 && socks[i].filter > ETH_IEEE802_3_MAX_LEN
                   ==> socks[i].filter != socks[j].filter
  }

  // With distinct filters, a frame whose type lies above the limit has at most one taker.
  lemma DistinctFiltersSeparate(socks: seq<Socket>, driver: Driver, ethType: EtherType)
    requires DistinctFilters(socks) && driver != 0 && ethType > ETH_IEEE802_3_MAX_LEN
    ensures AtMostOneMatch(socks, driver, ethType)
  {
  }

  // Below the limit that fails: two sockets with different length filters take the same frame.
  lemma LengthFramesCanHaveTwoTakers()
    ensures exists socks: seq<Socket>, driver: Driver, ethType: EtherType ::
              && DistinctFilters(socks) && driver != 0 && ethType <= ETH_IEEE802_3_MAX_LEN
              && !AtMostOneMatch(socks, driver, ethType)
  {
    var a := Socket(Opened, true, false, 1, 0, []);
    var c := Socket(Opened, true, false, 1, 100, []);
    assert Matches([a, c][0], 1, 60) && Matches([a, c][1], 1, 60);
    assert DistinctFilters([a, c]) && !AtMostOneMatch([a, c], 1, 60);
  }

  // For frames of either kind: a frame has at most one taker for every type exactly when open sockets of the
  // driver have distinct filters and at most one of them filters lengths.
  lemma OneTakerIff(socks: seq<Socket>, driver: Driver)
    requires driver != 0
    ensures (forall ethType: EtherType :: AtMostOneMatch(socks, driver, ethType))
            <==> (forall i, j :: 0 <= i < j < |socks| && socks[i].state.Opened? && socks[j].state.Opened?
                                 && socks[i].driver == driver && socks[j].driver == driver
                                 ==> socks[i].filter != socks[j].filter
                                     && (socks[i].filter > ETH_IEEE802_3_MAX_LEN || socks[j].filter > ETH_IEEE802_3_MAX_LEN))
  {
    if forall ethType: EtherType :: AtMostOneMatch(socks, driver, ethType) {
      forall i, j | 0 <= i < j < |socks| && socks[i].state.Opened? && socks[j].state.Opened?
                    && socks[i].driver == driver && socks[j].driver == driver
        ensures socks[i].filter != socks[j].filter
                && (socks[i].filter > ETH_IEEE802_3_MAX_LEN || socks[j].filter > ETH_IEEE802_3_MAX_LEN)
      {
        assert AtMostOneMatch(socks, driver, socks[i].filter);
        assert Matches(socks[i], driver, socks[i].filter);
        assert AtMostOneMatch(socks, driver, 0);
        assert socks[i].filter <= ETH_IEEE802_3_MAX_LEN ==> Matches(socks[i], driver, 0);
        assert socks[j].filter <= ETH_IEEE802_3_MAX_LEN ==> Matches(socks[j], driver, 0);
      }
    }
  }

  // Binding an open socket to another driver keeps filters distinct exactly when no other open socket of that
  // driver already has its filter, or the filter is still in the length range, as it is after opening.
  lemma RebindKeepsDistinctIff(socks: seq<Socket>, fd: nat, driver: Driver)
    requires fd < |socks| && socks[fd].state.Opened? && DistinctFilters(socks) && driver != 0
    ensures DistinctFilters(socks[fd := socks[fd].(driver := driver)])
            <==> socks[fd].filter <= ETH_IEEE802_3_MAX_LEN
                 || forall i :: 0 <= i < |socks| && i != fd && socks[i].state.Opened? && socks[i].driver == driver
                                ==> socks[i].filter != socks[fd].filter
  {
    var after := socks[fd := socks[fd].(driver := driver)];
    if DistinctFilters(after) && socks[fd].filter > ETH_IEEE802_3_MAX_LEN {
      forall i | 0 <= i < |socks| && i != fd && socks[i].state.Opened? && socks[i].driver == driver
        ensures socks[i].filter != socks[fd].filter
      {
        assert after[i] == socks[i] && after[fd].filter == socks[fd].filter;
        assert if i < fd then i < fd else fd < i;
      }
    }
  }

  // ---- The table as a value -----------------------------------------------

  // The sockets, and a ledger: buffers taken over with a frame, and buffers given back, once per freeing call.
  datatype Tap = Tap(socks: seq<Socket>, claimed: multiset<Buffer>, freed: multiset<Buffer>)

  // Every buffer that was taken over is still queued or was freed, as often as it was taken.
  ghost predicate Balanced(t: Tap) {
    t.claimed == t.freed + HeldByAll(t.socks)
  }

  ghost predicate WellKept(t: Tap, capacity: nat) {
    forall i :: 0 <= i < |t.socks| ==>
      && |t.socks[i].queue| <= capacity
      && (t.socks[i].state.Ready? ==> t.socks[i].queue == [])
      && Genuine(t.socks[i].queue)
  }

  // Every queued frame has its buffer.
  ghost predicate Genuine(queue: seq<Entry>) {
    forall k :: 0 <= k < |queue| && queue[k].len > 0 ==> queue[k].buff.Some?
  }

  // One socket is replaced while c is taken over and f is given back; the ledger stays balanced when the
  // queue accounts for the difference.
  lemma UpdateBalance(t: Tap, fd: nat, s: Socket, c: multiset<Buffer>, f: multiset<Buffer>)
    requires fd < |t.socks| && Balanced(t)
    requires Held(t.socks[fd].queue) + c == Held(s.queue) + f
    ensures Balanced(Tap(t.socks[fd := s], t.claimed + c, t.freed + f))
  {
    hide Held, HeldByAll;
    HeldReplace(t.socks, fd, s);
    var all, all', was, now := HeldByAll(t.socks), HeldByAll(t.socks[fd := s]), Held(t.socks[fd].queue), Held(s.queue);
    forall b: Buffer
      ensures (t.claimed + c)[b] == (t.freed + f + all')[b]
    {
      assert (all' + was)[b] == (all + now)[b] && (was + c)[b] == (now + f)[b];
    }
  }

  function FreshSocket(nonBlock: bool): Socket {
    Socket(Opened, nonBlock, false, 0, 0, [])
  }

  ghost function Open(t: Tap, fd: nat, nonBlock: bool): Tap
    requires fd < |t.socks|
  {
    t.(socks := t.socks[fd := FreshSocket(nonBlock)])
  }

  // The same without buffers taken over.
  lemma ReleaseBalance(t: Tap, fd: nat, s: Socket, f: multiset<Buffer>)
    requires fd < |t.socks| && Balanced(t)
    requires Held(t.socks[fd].queue) == Held(s.queue) + f
    ensures Balanced(Tap(t.socks[fd := s], t.claimed, t.freed + f))
  {
    hide Held, HeldByAll, Balanced;
    UpdateBalance(t, fd, s, multiset{}, f);
    assert t.claimed + multiset{} == t.claimed;
  }

  lemma OpenKeeps(t: Tap, fd: nat, nonBlock: bool, capacity: nat)
    requires fd < |t.socks| && t.socks[fd].state.Ready? && WellKept(t, capacity)
    ensures WellKept(Open(t, fd, nonBlock), capacity)
    ensures Balanced(t) ==> Balanced(Open(t, fd, nonBlock))
    ensures DistinctFilters(t.socks) ==> DistinctFilters(Open(t, fd, nonBlock).socks)
  {
    hide Balanced;
    if Balanced(t) {
      ReleaseBalance(t, fd, FreshSocket(nonBlock), multiset{});
      assert t.freed + multiset{} == t.freed;
    }
  }

  // l2tap_close with no reader waiting: what is queued is freed and the descriptor is ready again.
  ghost function Close(t: Tap, fd: nat): Tap
    requires fd < |t.socks|
  {
    Tap(t.socks[fd := t.socks[fd].(state := Ready, queue := [])], t.claimed, t.freed + Held(t.socks[fd].queue))
  }

  lemma CloseKeeps(t: Tap, fd: nat, capacity: nat)
    requires fd < |t.socks| && WellKept(t, capacity)
    ensures WellKept(Close(t, fd), capacity)
    ensures Balanced(t) ==> Balanced(Close(t, fd))
    ensures DistinctFilters(t.socks) ==> DistinctFilters(Close(t, fd).socks)
  {
    hide Balanced;
    if Balanced(t) {
      ReleaseBalance(t, fd, t.socks[fd].(state := Ready, queue := []), Held(t.socks[fd].queue));
    }
  }

  // l2tap_close without the means to finish: the descriptor keeps its queue and is never ready again.
  ghost function Abandon(t: Tap, fd: nat): Tap
    requires fd < |t.socks|
  {
    t.(socks := t.socks[fd := t.socks[fd].(state := Closing)])
  }

  lemma AbandonKeeps(t: Tap, fd: nat, capacity: nat)
    requires fd < |t.socks| && WellKept(t, capacity)
    ensures WellKept(Abandon(t, fd), capacity)
    ensures Balanced(t) ==> Balanced(Abandon(t, fd))
    ensures DistinctFilters(t.socks) ==> DistinctFilters(Abandon(t, fd).socks)
  {
    hide Balanced;
    if Balanced(t) {
      ReleaseBalance(t, fd, t.socks[fd].(state := Closing), multiset{});
      assert t.freed + multiset{} == t.freed;
    }
  }

  // pop_rx_queue on a queue that is not empty: a frame's buffer is freed, the close signal is passed on.
  ghost function Pop(t: Tap, fd: nat): Tap
    requires fd < |t.socks| && t.socks[fd].queue != []
  {
    var e, rest := t.socks[fd].queue[0], t.socks[fd].queue[1..];
    Tap(t.socks[fd := t.socks[fd].(queue := if e.len == 0 then rest + [Entry(None, 0)] else rest)],
        t.claimed, t.freed + Owned(e))
  }

  lemma PopKeeps(t: Tap, fd: nat, capacity: nat)
    requires fd < |t.socks| && t.socks[fd].queue != [] && t.socks[fd].state.Opened? && WellKept(t, capacity)
    ensures WellKept(Pop(t, fd), capacity)
    ensures Balanced(t) ==> Balanced(Pop(t, fd))
    ensures DistinctFilters(t.socks) ==> DistinctFilters(Pop(t, fd).socks)
    ensures var rest := t.socks[fd].queue[1..];
            Pop(t, fd).socks[fd].queue == rest + if t.socks[fd].queue[0].len == 0 then [Entry(None, 0)] else []
  {
    hide Balanced, Held, WellKept, DistinctFilters;
    PopKeepsKept(t, fd, capacity);
    PopKeepsDistinct(t, fd);
    var queue := t.socks[fd].queue;
    HeldPop(queue);
    HeldPush(queue[1..], Entry(None, 0));
    if Balanced(t) {
      ReleaseBalance(t, fd, Pop(t, fd).socks[fd], Owned(queue[0]));
    }
  }

  lemma PopKeepsKept(t: Tap, fd: nat, capacity: nat)
    requires fd < |t.socks| && t.socks[fd].queue != [] && t.socks[fd].state.Opened? && WellKept(t, capacity)
    ensures WellKept(Pop(t, fd), capacity)
  {
  }

  lemma PopKeepsDistinct(t: Tap, fd: nat)
    requires fd < |t.socks| && t.socks[fd].queue != []
    ensures DistinctFilters(t.socks) ==> DistinctFilters(Pop(t, fd).socks)
  {
  }

  // esp_vfs_l2tap_eth_filter_frame for sockets 0 to n - 1; the second result is *size afterwards.
  ghost function Filter(t: Tap, n: nat, driver: Driver, ethType: EtherType, buff: Buffer, size: nat, capacity: nat)
      : (r: (Tap, nat))
    requires n <= |t.socks|
    ensures |r.0.socks| == |t.socks|
    ensures forall i :: n <= i < |t.socks| ==> r.0.socks[i] == t.socks[i]
  {
    if n == 0 then (t, size)
    else
      var (u, left) := Filter(t, n - 1, driver, ethType, buff, size, capacity);
      if !Matches(t.socks[n - 1], driver, ethType) then (u, left)
      else
        (Tap(u.socks[n - 1 := Deliver(t.socks[n - 1], buff, left, capacity)],
             u.claimed + Owned(Entry(Some(buff), left)),
             u.freed + if |t.socks[n - 1].queue| < capacity then multiset{} else multiset{buff}),
         0)
  }

  // What became of a frame offered to the whole table, said without the loop: a socket that does not match is
  // untouched, the first that matches gets the frame with its length, and any later one gets it with length 0.
  lemma {:induction false} FilterEffect(t: Tap, n: nat, driver: Driver, ethType: EtherType, buff: Buffer, size: nat,
                                        capacity: nat, i: nat)
    requires n <= |t.socks| && i < n
    ensures var (u, left) := Filter(t, n, driver, ethType, buff, size, capacity);
            && (!Matches(t.socks[i], driver, ethType) ==> u.socks[i] == t.socks[i])
            && (Matches(t.socks[i], driver, ethType) ==>
                  && left == 0
                  && u.socks[i] == Deliver(t.socks[i], buff, if SomeMatch(t.socks[..i], driver, ethType) then 0 else size,
                                           capacity))
    decreases n
  {
    FilterClaims(t, n - 1, driver, ethType, buff, size, capacity);
    if i < n - 1 {
      FilterEffect(t, n - 1, driver, ethType, buff, size, capacity, i);
    }
  }

  // The size becomes 0 exactly when the frame is taken; otherwise nothing changes at all.
  lemma {:induction false} FilterClaims(t: Tap, n: nat, driver: Driver, ethType: EtherType, buff: Buffer, size: nat,
                                        capacity: nat)
    requires n <= |t.socks|
    ensures var (u, left) := Filter(t, n, driver, ethType, buff, size, capacity);
            && left == (if SomeMatch(t.socks[..n], driver, ethType) then 0 else size)
            && (!SomeMatch(t.socks[..n], driver, ethType) ==> u == t)
  {
    if n > 0 {
      FilterClaims(t, n - 1, driver, ethType, buff, size, capacity);
      SomeMatchGrows(t.socks, n - 1, driver, ethType);
    }
  }

  lemma SomeMatchGrows(socks: seq<Socket>, n: nat, driver: Driver, ethType: EtherType)
    requires n < |socks|
    ensures SomeMatch(socks[..n + 1], driver, ethType)
            <==> SomeMatch(socks[..n], driver, ethType) || Matches(socks[n], driver, ethType)
  {
    if SomeMatch(socks[..n], driver, ethType) {
      var i :| 0 <= i < n && Matches(socks[..n][i], driver, ethType);
      assert Matches(socks[..n + 1][i], driver, ethType);
    }
    if Matches(socks[n], driver, ethType) {
      assert socks[..n + 1][n] == socks[n];
    }
    if SomeMatch(socks[..n + 1], driver, ethType) {
      var i :| 0 <= i < n + 1 && Matches(socks[..n + 1][i], driver, ethType);
      assert i < n ==> socks[..n][i] == socks[i];
    }
  }

  // A socket that is offered a non-empty frame: queued, or freed at once when the queue is full.
  lemma DeliverBalance(t: Tap, i: nat, buff: Buffer, size: nat, capacity: nat)
    requires i < |t.socks| && Balanced(t) && size > 0
    ensures Balanced(Tap(t.socks[i := Deliver(t.socks[i], buff, size, capacity)],
                         t.claimed + multiset{buff},
                         t.freed + if |t.socks[i].queue| < capacity then multiset{} else multiset{buff}))
  {
    hide Balanced, Held;
    HeldPush(t.socks[i].queue, Entry(Some(buff), size));
    UpdateBalance(t, i, Deliver(t.socks[i], buff, size, capacity), multiset{buff},
                  if |t.socks[i].queue| < capacity then multiset{} else multiset{buff});
  }

  // A non-empty frame with at most one taker is accounted for: it is taken over once, and it is then queued, or
  // freed at once when the queue is full.
  lemma {:induction false} FilterKeepsBalance(t: Tap, n: nat, driver: Driver, ethType: EtherType, buff: Buffer,
                                              size: nat, capacity: nat)
    requires n <= |t.socks| && Balanced(t) && size > 0 && AtMostOneMatch(t.socks, driver, ethType)
    ensures var (u, left) := Filter(t, n, driver, ethType, buff, size, capacity);
            && Balanced(u)
            && u.claimed == t.claimed + if SomeMatch(t.socks[..n], driver, ethType) then multiset{buff} else multiset{}
  {
    hide Balanced, Matches, SomeMatch, Deliver;
    EmptyHasNoMatch(driver, ethType);
    assert t.socks[..0] == [];
    if n > 0 {
      FilterKeepsBalance(t, n - 1, driver, ethType, buff, size, capacity);
      FilterClaims(t, n - 1, driver, ethType, buff, size, capacity);
      SomeMatchGrows(t.socks, n - 1, driver, ethType);
      if Matches(t.socks[n - 1], driver, ethType) {
        OnlyTaker(t.socks, n - 1, driver, ethType);
        DeliverBalance(t, n - 1, buff, size, capacity);
      }
    }
  }

  lemma EmptyHasNoMatch(driver: Driver, ethType: EtherType)
    ensures !SomeMatch([], driver, ethType)
  {
  }

  lemma OnlyTaker(socks: seq<Socket>, i: nat, driver: Driver, ethType: EtherType)
    requires i < |socks| && Matches(socks[i], driver, ethType) && AtMostOneMatch(socks, driver, ethType)
    ensures !SomeMatch(socks[..i], driver, ethType)
  {
  }

  // Socket j takes the frame although an earlier socket took it, and its queue is full.
  ghost predicate LateAndFull(socks: seq<Socket>, j: nat, driver: Driver, ethType: EtherType, capacity: nat)
    requires j < |socks|
  {
    Matches(socks[j], driver, ethType) && SomeMatch(socks[..j], driver, ethType) && |socks[j].queue| >= capacity
  }

  // How many of the first n sockets are late and full; each of them frees the buffer once more.
  ghost function LateAndFullCount(socks: seq<Socket>, n: nat, driver: Driver, ethType: EtherType, capacity: nat): nat
    requires n <= |socks|
  {
    if n == 0 then 0
    else LateAndFullCount(socks, n - 1, driver, ethType, capacity)
         + if LateAndFull(socks, n - 1, driver, ethType, capacity) then 1 else 0
  }

  lemma {:induction false} NoneIsLateAndFull(socks: seq<Socket>, n: nat, driver: Driver, ethType: EtherType, capacity: nat)
    requires n <= |socks|
    ensures LateAndFullCount(socks, n, driver, ethType, capacity) == 0
            <==> forall j :: 0 <= j < n ==> !LateAndFull(socks, j, driver, ethType, capacity)
  {
    if n > 0 {
      NoneIsLateAndFull(socks, n - 1, driver, ethType, capacity);
    }
  }

  // The ledger with extra buffers that were given back once too often.
  ghost predicate OffBy(t: Tap, extra: multiset<Buffer>) {
    Balanced(t.(claimed := t.claimed + extra))
  }

  ghost function Copies(buff: Buffer, n: nat): multiset<Buffer> {
    multiset{}[buff := n]
  }

  // A frame of any kind, with any number of takers: each late taker with a full queue frees the buffer once too often.
  lemma {:induction false} FilterLedger(t: Tap, n: nat, driver: Driver, ethType: EtherType, buff: Buffer, size: nat,
                                        capacity: nat, extra: multiset<Buffer>)
    requires n <= |t.socks| && OffBy(t, extra) && size > 0
    ensures var (u, left) := Filter(t, n, driver, ethType, buff, size, capacity);
            OffBy(u, extra + Copies(buff, LateAndFullCount(t.socks, n, driver, ethType, capacity)))
  {
    hide Balanced, Matches, SomeMatch;
    if n == 0 {
      assert extra + Copies(buff, 0) == extra;
    } else {
      FilterLedger(t, n - 1, driver, ethType, buff, size, capacity, extra);
      FilterClaims(t, n - 1, driver, ethType, buff, size, capacity);
      if Matches(t.socks[n - 1], driver, ethType) {
        var (u, left) := Filter(t, n - 1, driver, ethType, buff, size, capacity);
        var late := LateAndFullCount(t.socks, n - 1, driver, ethType, capacity);
        TakerLedger(u, n - 1, buff, left, capacity, extra + Copies(buff, late));
        OneMore(extra, buff, late);
        assert extra + Copies(buff, late) + multiset{} == extra + Copies(buff, late);
      }
    }
  }

  lemma OneMore(extra: multiset<Buffer>, buff: Buffer, n: nat)
    ensures extra + Copies(buff, n) + multiset{buff} == extra + Copies(buff, n + 1)
  {
  }

  // One taker: left is 0 when another took the frame before.
  lemma TakerLedger(t: Tap, i: nat, buff: Buffer, left: nat, capacity: nat, extra: multiset<Buffer>)
    requires i < |t.socks| && OffBy(t, extra)
    ensures var full := |t.socks[i].queue| >= capacity;
            OffBy(Tap(t.socks[i := Deliver(t.socks[i], buff, left, capacity)],
                      t.claimed + Owned(Entry(Some(buff), left)),
                      t.freed + if full then multiset{buff} else multiset{}),
                  extra + if full && left == 0 then multiset{buff} else multiset{})
  {
    hide Balanced, Held;
    var full := |t.socks[i].queue| >= capacity;
    var s := Deliver(t.socks[i], buff, left, capacity);
    var owned := Owned(Entry(Some(buff), left));
    var more := if full && left == 0 then multiset{buff} else multiset{};
    HeldPush(t.socks[i].queue, Entry(Some(buff), left));
    var t' := t.(claimed := t.claimed + extra);
    var f := if full then multiset{buff} else multiset{};
    assert Held(t.socks[i].queue) + (owned + more) == Held(s.queue) + f;
    UpdateBalance(t', i, s, owned + more, f);
    var u := Tap(t.socks[i := s], t.claimed + owned, t.freed + f);
    assert u.(claimed := u.claimed + (extra + more)) == Tap(t.socks[i := s], t'.claimed + (owned + more), t'.freed + f);
  }

  // A frame of any kind leaves the ledger balanced if and only if no socket takes it late with a full queue.
  lemma FilterBalancedIff(t: Tap, driver: Driver, ethType: EtherType, buff: Buffer, size: nat, capacity: nat)
    requires Balanced(t) && size > 0
    ensures Balanced(Filter(t, |t.socks|, driver, ethType, buff, size, capacity).0)
            <==> forall j :: 0 <= j < |t.socks| ==> !LateAndFull(t.socks, j, driver, ethType, capacity)
  {
    var n := LateAndFullCount(t.socks, |t.socks|, driver, ethType, capacity);
    var u := Filter(t, |t.socks|, driver, ethType, buff, size, capacity).0;
    assert t.(claimed := t.claimed + multiset{}) == t;
    FilterLedger(t, |t.socks|, driver, ethType, buff, size, capacity, multiset{});
    NoneIsLateAndFull(t.socks, |t.socks|, driver, ethType, capacity);
    OffByNothing(u, multiset{} + Copies(buff, n));
    assert (multiset{} + Copies(buff, n))[buff] == n;
    assert n == 0 ==> multiset{} + Copies(buff, n) == multiset{};
  }

  lemma OffByNothing(t: Tap, extra: multiset<Buffer>)
    requires OffBy(t, extra)
    ensures Balanced(t) <==> extra == multiset{}
  {
    forall b: Buffer
      ensures (t.claimed + extra)[b] == t.claimed[b] + extra[b]
    {
    }
    assert extra == multiset{} ==> t.claimed + extra == t.claimed;
  }

  // When every descriptor is closed again, every buffer taken over was freed as often as it was taken.
  lemma AllFreedAtTheEnd(t: Tap, capacity: nat)
    requires Balanced(t) && WellKept(t, capacity)
    requires forall i :: 0 <= i < |t.socks| ==> t.socks[i].state.Ready?
    ensures t.freed == t.claimed
  {
    NothingHeld(t.socks);
  }

  lemma {:induction false} NothingHeld(socks: seq<Socket>)
    requires forall i :: 0 <= i < |socks| ==> socks[i].queue == []
    ensures HeldByAll(socks) == multiset{}
  {
    if socks != [] {
      NothingHeld(socks[..|socks| - 1]);
    }
  }

  // A buffer taken over once is freed at most once, and not at all exactly while it is queued.
  lemma TakenOnceFreedOnce(t: Tap, b: Buffer)
    requires Balanced(t) && t.claimed[b] == 1
    ensures t.freed[b] <= 1
    ensures t.freed[b] == 0 <==> b in HeldByAll(t.socks)
  {
  }

  // ---- Setting filters and drivers ----------------------------------------

  // l2tap_ioctl, L2TAP_S_RCV_FILTER
  ghost function SetFilter(socks: seq<Socket>, fd: nat, filter: EtherType): (r: (seq<Socket>, Option<Errno>))
    requires fd < |socks|
  {
    if socks[fd].driver == 0 then (socks, Some(EACCES))
    else if socks[fd].filter == filter then (socks, None)
    else if exists i :: 0 <= i < |socks| && socks[i].state.Opened? && socks[i].driver == socks[fd].driver
                        && socks[i].filter == filter
    then (socks, Some(EINVAL))
    else (socks[fd := socks[fd].(filter := filter)], None)
  }

  // A filter is refused exactly when the socket has no driver, or another socket that is open has it with the same driver,
  // and is set otherwise.
  lemma SetFilterRefusedIff(socks: seq<Socket>, fd: nat, filter: EtherType)
    requires fd < |socks|
    ensures var (after, error) := SetFilter(socks, fd, filter);
            && (error == Some(EACCES) <==> socks[fd].driver == 0)
            && (error == Some(EINVAL) <==>
                  && socks[fd].driver != 0 && socks[fd].filter != filter
                  && exists i :: 0 <= i < |socks| && i != fd && socks[i].state.Opened?
                                 && socks[i].driver == socks[fd].driver && socks[i].filter == filter)
            && (error == None || error == Some(EACCES) || error == Some(EINVAL))
            && |after| == |socks| && (forall i :: 0 <= i < |socks| && i != fd ==> after[i] == socks[i])
            && after[fd] == if error.None? then socks[fd].(filter := filter) else socks[fd]
  {
  }

  lemma SetFilterKeepsDistinct(socks: seq<Socket>, fd: nat, filter: EtherType)
    requires fd < |socks| && DistinctFilters(socks)
    ensures DistinctFilters(SetFilter(socks, fd, filter).0)
  {
  }

  // l2tap_ioctl, L2TAP_S_DEVICE_DRV_HNDL with a driver other than NULL, and L2TAP_S_INTF_DEVICE with any that an
  // interface has
  ghost function Bind(socks: seq<Socket>, fd: nat, driver: Driver): seq<Socket>
    requires fd < |socks|
  {
    socks[fd := socks[fd].(driver := driver)]
  }

  lemma BindKeepsDistinct(socks: seq<Socket>, fd: nat, driver: Driver)
    requires fd < |socks| && DistinctFilters(socks)
    requires socks[fd].state.Opened? ==> socks[fd].filter <= ETH_IEEE802_3_MAX_LEN
    ensures DistinctFilters(Bind(socks, fd, driver))
  {
  }

  // A new socket can be read with a size, waits or not as it was opened, takes no frame of any driver, and takes exactly
  // the length frames of a driver it is bound to. Binding keeps the filter of any socket.
  lemma BoundTakesIff(socks: seq<Socket>, fd: nat, nonBlock: bool, driver: Driver, bound: Driver, ethType: EtherType)
    requires fd < |socks| && driver != 0
    ensures var s := FreshSocket(nonBlock); s.nonBlock == nonBlock && !s.timeStamp && !Matches(s, driver, ethType)
    ensures Matches(FreshSocket(nonBlock).(driver := bound), driver, ethType) <==> driver == bound && ethType <= 1500
    ensures var s := Bind(socks, fd, bound)[fd];
            Matches(s, driver, ethType)
            <==> socks[fd].state.Opened? && driver == bound && (socks[fd].filter == ethType || (socks[fd].filter <= 1500 && ethType <= 1500))
    ensures Bind(socks, fd, bound)[fd].queue == socks[fd].queue && Bind(socks, fd, bound)[fd].filter == socks[fd].filter
  {
  }

  // ---- Runs ---------------------------------------------------------------

  datatype Op =
    | OpenOp(fd: nat, nonBlock: bool)
    | CloseOp(fd: nat)
    | AbandonOp(fd: nat)
    | FilterOp(fd: nat, filter: EtherType)
    | BindOp(fd: nat, driver: Driver)
    | FrameOp(driver: Driver, ethType: EtherType, buff: Buffer, size: nat)
    | ReadOp(fd: nat)

  ghost predicate Possible(t: Tap, op: Op) {
    match op
    case OpenOp(fd, _) => fd < |t.socks| && t.socks[fd].state.Ready?
    case CloseOp(fd) => fd < |t.socks| && t.socks[fd].state.Opened?
    case AbandonOp(fd) => fd < |t.socks| && t.socks[fd].state.Opened?
    case FilterOp(fd, _) => fd < |t.socks|
    case BindOp(fd, _) => fd < |t.socks|
    case FrameOp(driver, _, _, size) => driver != 0 && size > 0
    case ReadOp(fd) => fd < |t.socks| && t.socks[fd].state.Opened? && t.socks[fd].queue != []
  }

  ghost function Do(t: Tap, op: Op, capacity: nat): Tap
    requires Possible(t, op)
  {
    match op
    case OpenOp(fd, nonBlock) => Open(t, fd, nonBlock)
    case CloseOp(fd) => Close(t, fd)
    case AbandonOp(fd) => Abandon(t, fd)
    case FilterOp(fd, filter) => t.(socks := SetFilter(t.socks, fd, filter).0)
    case BindOp(fd, driver) => t.(socks := Bind(t.socks, fd, driver))
    case FrameOp(driver, ethType, buff, size) => Filter(t, |t.socks|, driver, ethType, buff, size, capacity).0
    case ReadOp(fd) => Pop(t, fd)
  }

  ghost predicate Feasible(t: Tap, ops: seq<Op>, capacity: nat)
    decreases |ops|
  {
    ops == [] || (Possible(t, ops[0]) && Feasible(Do(t, ops[0], capacity), ops[1..], capacity))
  }

  ghost function DoAll(t: Tap, ops: seq<Op>, capacity: nat): Tap
    requires Feasible(t, ops, capacity)
    decreases |ops|
  {
    if ops == [] then t else DoAll(Do(t, ops[0], capacity), ops[1..], capacity)
  }

  // An open socket is bound only while its filter is still in the length range, and no frame is offered that two
  // sockets would take below that range.
  ghost predicate Careful(t: Tap, op: Op) {
    && (op.BindOp? && op.fd < |t.socks| && t.socks[op.fd].state.Opened? ==> t.socks[op.fd].filter <= ETH_IEEE802_3_MAX_LEN)
    && (op.FrameOp? && op.ethType <= ETH_IEEE802_3_MAX_LEN ==> AtMostOneMatch(t.socks, op.driver, op.ethType))
  }

  ghost predicate Disciplined(t: Tap, ops: seq<Op>, capacity: nat)
    requires Feasible(t, ops, capacity)
    decreases |ops|
  {
    ops == [] || (Careful(t, ops[0]) && Disciplined(Do(t, ops[0], capacity), ops[1..], capacity))
  }

  ghost predicate InOrder(t: Tap, capacity: nat) {
    WellKept(t, capacity) && Balanced(t) && DistinctFilters(t.socks)
  }

  lemma FilterKeepsKept(t: Tap, driver: Driver, ethType: EtherType, buff: Buffer, size: nat, capacity: nat)
    requires WellKept(t, capacity)
    ensures var u := Filter(t, |t.socks|, driver, ethType, buff, size, capacity).0;
            WellKept(u, capacity) && (DistinctFilters(t.socks) ==> DistinctFilters(u.socks))
  {
    var u := Filter(t, |t.socks|, driver, ethType, buff, size, capacity).0;
    forall i | 0 <= i < |t.socks|
      ensures u.socks[i].state == t.socks[i].state && u.socks[i].driver == t.socks[i].driver
              && u.socks[i].filter == t.socks[i].filter && |u.socks[i].queue| <= capacity
              && Genuine(u.socks[i].queue)
              && (u.socks[i].state.Ready? ==> u.socks[i].queue == [])
    {
      FilterEffect(t, |t.socks|, driver, ethType, buff, size, capacity, i);
    }
  }

  lemma DoKeepsOrder(t: Tap, op: Op, capacity: nat)
    requires InOrder(t, capacity) && Possible(t, op) && Careful(t, op)
    ensures InOrder(Do(t, op, capacity), capacity)
  {
    hide Open, Close, Abandon, Pop, Filter, Balanced;
    match op
    case OpenOp(fd, nonBlock) => OpenKeeps(t, fd, nonBlock, capacity);
    case CloseOp(fd) => CloseKeeps(t, fd, capacity);
    case AbandonOp(fd) => AbandonKeeps(t, fd, capacity);
    case FilterOp(fd, filter) =>
      SetFilterKeepsDistinct(t.socks, fd, filter);
      OtherFieldsKeep(t, SetFilter(t.socks, fd, filter).0, capacity);
    case BindOp(fd, driver) =>
      BindKeepsDistinct(t.socks, fd, driver);
      OtherFieldsKeep(t, Bind(t.socks, fd, driver), capacity);
    case FrameOp(driver, ethType, buff, size) =>
      if ethType > ETH_IEEE802_3_MAX_LEN {
        DistinctFiltersSeparate(t.socks, driver, ethType);
      }
      FilterKeepsBalance(t, |t.socks|, driver, ethType, buff, size, capacity);
      FilterKeepsKept(t, driver, ethType, buff, size, capacity);
    case ReadOp(fd) => PopKeeps(t, fd, capacity);
  }

  // Over every disciplined run the filters stay distinct, every frame is taken at most once, and every buffer
  // that was taken is still queued or was freed, as often as it was taken.
  lemma {:induction false} RunsStayInOrder(t: Tap, ops: seq<Op>, capacity: nat)
    requires InOrder(t, capacity) && Feasible(t, ops, capacity) && Disciplined(t, ops, capacity)
    ensures InOrder(DoAll(t, ops, capacity), capacity)
    decreases |ops|
  {
    hide InOrder, Do, Possible, Careful;
    if ops != [] {
      DoKeepsOrder(t, ops[0], capacity);
      RunsStayInOrder(Do(t, ops[0], capacity), ops[1..], capacity);
    }
  }

  // ---- Exactly when the ledger stays balanced ------------------------------

  // No frame of the run meets a late taker with a full queue.
  ghost predicate NeverLateAndFull(t: Tap, ops: seq<Op>, capacity: nat)
    requires Feasible(t, ops, capacity)
    decreases |ops|
  {
    ops == [] ||
    (&& (ops[0].FrameOp? ==>
           forall j :: 0 <= j < |t.socks| ==> !LateAndFull(t.socks, j, ops[0].driver, ops[0].ethType, capacity))
     && NeverLateAndFull(Do(t, ops[0], capacity), ops[1..], capacity))
  }

  ghost function ExtraNow(t: Tap, op: Op, capacity: nat): multiset<Buffer> {
    if op.FrameOp? then Copies(op.buff, LateAndFullCount(t.socks, |t.socks|, op.driver, op.ethType, capacity))
    else multiset{}
  }

  // Buffers that a run gives back once too often.
  ghost function Extra(t: Tap, ops: seq<Op>, capacity: nat): multiset<Buffer>
    requires Feasible(t, ops, capacity)
    decreases |ops|
  {
    if ops == [] then multiset{}
    else ExtraNow(t, ops[0], capacity) + Extra(Do(t, ops[0], capacity), ops[1..], capacity)
  }

  // What one operation does to the ledger, disciplined or not.
  lemma StepLedger(t: Tap, op: Op, capacity: nat, extra: multiset<Buffer>)
    requires WellKept(t, capacity) && OffBy(t, extra) && Possible(t, op)
    ensures WellKept(Do(t, op, capacity), capacity)
    ensures OffBy(Do(t, op, capacity), extra + ExtraNow(t, op, capacity))
  {
    hide Balanced, Filter;
    var t' := t.(claimed := t.claimed + extra);
    assert extra + multiset{} == extra;
    match op
    case OpenOp(fd, nonBlock) => OpenKeeps(t', fd, nonBlock, capacity);
    case CloseOp(fd) => CloseKeeps(t', fd, capacity);
    case AbandonOp(fd) => AbandonKeeps(t', fd, capacity);
    case FilterOp(fd, filter) => OtherFieldsKeep(t', SetFilter(t.socks, fd, filter).0, capacity);
    case BindOp(fd, driver) => OtherFieldsKeep(t', Bind(t.socks, fd, driver), capacity);
    case FrameOp(driver, ethType, buff, size) =>
      FilterLedger(t, |t.socks|, driver, ethType, buff, size, capacity, extra);
      FilterKeepsKept(t, driver, ethType, buff, size, capacity);
    case ReadOp(fd) => PopKeeps(t', fd, capacity);
  }

  lemma {:induction false} RunLedger(t: Tap, ops: seq<Op>, capacity: nat, extra: multiset<Buffer>)
    requires WellKept(t, capacity) && OffBy(t, extra) && Feasible(t, ops, capacity)
    ensures OffBy(DoAll(t, ops, capacity), extra + Extra(t, ops, capacity)) && WellKept(DoAll(t, ops, capacity), capacity)
    ensures Extra(t, ops, capacity) == multiset{} <==> NeverLateAndFull(t, ops, capacity)
    decreases |ops|
  {
    hide WellKept, OffBy, Do, Possible;
    if ops == [] {
      assert extra + multiset{} == extra;
    } else {
      var now, u := ExtraNow(t, ops[0], capacity), Do(t, ops[0], capacity);
      StepLedger(t, ops[0], capacity, extra);
      RunLedger(u, ops[1..], capacity, extra + now);
      assert extra + now + Extra(u, ops[1..], capacity) == extra + (now + Extra(u, ops[1..], capacity));
      NothingNowIff(t, ops[0], capacity);
    }
  }

  // A descriptor whose close could not be finished is lost: over every run it stays closing, with its queue, and so it
  // takes no frame and is not opened again.
  lemma {:induction false} AbandonedIsLost(t: Tap, ops: seq<Op>, fd: nat, capacity: nat)
    requires fd < |t.socks| && t.socks[fd].state.Closing? && Feasible(t, ops, capacity)
    ensures var u := DoAll(t, ops, capacity);
            fd < |u.socks| && u.socks[fd].state.Closing? && u.socks[fd].queue == t.socks[fd].queue
    decreases |ops|
  {
    if ops != [] {
      AbandonedStep(t, ops[0], fd, capacity);
      hide Do, Possible;
      AbandonedIsLost(Do(t, ops[0], capacity), ops[1..], fd, capacity);
    }
  }

  lemma AbandonedStep(t: Tap, op: Op, fd: nat, capacity: nat)
    requires fd < |t.socks| && t.socks[fd].state.Closing? && Possible(t, op)
    ensures var u := Do(t, op, capacity);
            |u.socks| == |t.socks| && u.socks[fd].state.Closing? && u.socks[fd].queue == t.socks[fd].queue
  {
    hide Filter;
    if op.FrameOp? {
      FilterEffect(t, |t.socks|, op.driver, op.ethType, op.buff, op.size, capacity, fd);
    }
  }

  // A failed close leaves the descriptor so.
  lemma AbandonCloses(t: Tap, fd: nat)
    requires fd < |t.socks|
    ensures Abandon(t, fd).socks[fd].state.Closing? && Abandon(t, fd).socks[fd].queue == t.socks[fd].queue
  {
  }

  lemma NothingNowIff(t: Tap, op: Op, capacity: nat)
    ensures ExtraNow(t, op, capacity) == multiset{} <==>
            (op.FrameOp? ==> forall j :: 0 <= j < |t.socks| ==> !LateAndFull(t.socks, j, op.driver, op.ethType, capacity))
  {
    if op.FrameOp? {
      NoneIsLateAndFull(t.socks, |t.socks|, op.driver, op.ethType, capacity);
      assert ExtraNow(t, op, capacity)[op.buff] == LateAndFullCount(t.socks, |t.socks|, op.driver, op.ethType, capacity);
    }
  }

  // Over every run, disciplined or not: every buffer taken over is still queued or was freed, as often as it was
  // taken, if and only if no frame met a late taker with a full queue. Otherwise some were freed too often.
  lemma RunBalancedIff(t: Tap, ops: seq<Op>, capacity: nat)
    requires WellKept(t, capacity) && Balanced(t) && Feasible(t, ops, capacity)
    ensures var u := DoAll(t, ops, capacity);
            && (Balanced(u) <==> NeverLateAndFull(t, ops, capacity))
            && u.claimed <= u.freed + HeldByAll(u.socks)
  {
    assert t.claimed + multiset{} == t.claimed;
    RunLedger(t, ops, capacity, multiset{});
    OffByNothing(DoAll(t, ops, capacity), multiset{} + Extra(t, ops, capacity));
    assert multiset{} + Extra(t, ops, capacity) == Extra(t, ops, capacity);
  }

  // ---- A run with two takers ----------------------------------------------

  const UNUSED := Socket(Ready, false, false, 0, 0, [])

  // A table with n free descriptors
  ghost function AllFree(n: nat): Tap {
    Tap(seq(n, _ => UNUSED), multiset{}, multiset{})
  }

  lemma NothingOff(t: Tap)
    ensures OffBy(t, multiset{}) <==> Balanced(t)
  {
    assert t.(claimed := t.claimed + multiset{}) == t;
  }

  // Length frames in buffers of their own, counted from first
  ghost function Fill(k: nat, first: Buffer): seq<Op> {
    seq(k, i requires 0 <= i => FrameOp(1, 60, first + i, 60))
  }

  // Socket 1 gets a length filter and its queue fills up with length frames; socket 0, bound with the length filter it
  // has from its opening, and socket 1 are both offered one more.
  ghost function TwoTakerRun(capacity: nat, buff: Buffer): seq<Op> {
    [OpenOp(0, true), OpenOp(1, true), BindOp(1, 1), FilterOp(1, 100)] + Fill(capacity, buff + 1)
    + [BindOp(0, 1), FrameOp(1, 60, buff, 60)]
  }

  lemma {:induction false} RunsJoin(t: Tap, a: seq<Op>, b: seq<Op>, capacity: nat)
    requires Feasible(t, a, capacity) && Feasible(DoAll(t, a, capacity), b, capacity)
    ensures Feasible(t, a + b, capacity) && DoAll(t, a + b, capacity) == DoAll(DoAll(t, a, capacity), b, capacity)
    ensures NeverLateAndFull(t, a + b, capacity) ==> NeverLateAndFull(DoAll(t, a, capacity), b, capacity)
    decreases |a|
  {
    hide Do, Possible, LateAndFull;
    if a == [] {
      assert a + b == b;
    } else {
      assert (a + b)[0] == a[0] && (a + b)[1..] == a[1..] + b;
      RunsJoin(Do(t, a[0], capacity), a[1..], b, capacity);
    }
  }

  // A length frame that only the second of two sockets takes
  lemma SecondTakes(t: Tap, buff: Buffer, capacity: nat)
    requires |t.socks| == 2 && t.socks[0].driver == 0
    requires t.socks[1].state.Opened? && t.socks[1].driver == 1 && t.socks[1].filter == 100
    requires |t.socks[1].queue| < capacity
    ensures var s := t.socks[1];
            Filter(t, 2, 1, 60, buff, 60, capacity).0
            == Tap([t.socks[0], s.(queue := s.queue + [Entry(Some(buff), 60)])], t.claimed + multiset{buff}, t.freed)
  {
    assert Filter(t, 0, 1, 60, buff, 60, capacity) == (t, 60);
    assert !Matches(t.socks[0], 1, 60) && Matches(t.socks[1], 1, 60);
    assert Filter(t, 1, 1, 60, buff, 60, capacity) == (t, 60);
    assert t.freed + multiset{} == t.freed;
  }

  // One that both take, the second with a full queue
  lemma BothTake(t: Tap, buff: Buffer, capacity: nat)
    requires |t.socks| == 2 && Matches(t.socks[0], 1, 60) && t.socks[0].queue == [] && capacity > 0
    requires Matches(t.socks[1], 1, 60) && |t.socks[1].queue| >= capacity
    ensures Filter(t, 2, 1, 60, buff, 60, capacity).0
            == Tap([t.socks[0].(queue := [Entry(Some(buff), 60)]), t.socks[1]],
                   t.claimed + multiset{buff}, t.freed + multiset{buff})
  {
    assert Filter(t, 0, 1, 60, buff, 60, capacity) == (t, 60);
    var u := Filter(t, 1, 1, 60, buff, 60, capacity).0;
    assert [] + [Entry(Some(buff), 60)] == [Entry(Some(buff), 60)];
    assert t.freed + multiset{} == t.freed;
    assert u == Tap([t.socks[0].(queue := [Entry(Some(buff), 60)]), t.socks[1]], t.claimed + multiset{buff}, t.freed);
    assert u.claimed + multiset{} == u.claimed;
  }

  lemma {:induction false} FillEffect(t: Tap, k: nat, buff: Buffer, capacity: nat)
    requires |t.socks| == 2 && t.socks[0].driver == 0
    requires t.socks[1].state.Opened? && t.socks[1].driver == 1 && t.socks[1].filter == 100
    requires |t.socks[1].queue| + k <= capacity
    ensures Feasible(t, Fill(k, buff), capacity)
    ensures var u := DoAll(t, Fill(k, buff), capacity);
            && |u.socks| == 2 && u.socks[0] == t.socks[0]
            && u.socks[1] == t.socks[1].(queue := u.socks[1].queue)
            && |u.socks[1].queue| == |t.socks[1].queue| + k
            && u.freed == t.freed && forall b :: b < buff ==> u.claimed[b] == t.claimed[b]
    decreases k
  {
    if k > 0 {
      var u := Do(t, FrameOp(1, 60, buff, 60), capacity);
      SecondTakes(t, buff, capacity);
      hide Filter;
      assert Fill(k, buff)[0] == FrameOp(1, 60, buff, 60) && Fill(k, buff)[1..] == Fill(k - 1, buff + 1);
      FillEffect(u, k - 1, buff + 1, capacity);
    }
  }

  // From a table with two free descriptors, with a buffer of its own for each frame and without any rebinding: the last
  // frame's buffer, taken over once, is freed while the other queue holds it and will free it again.
  lemma TwoTakersBreakBalance(capacity: nat, buff: Buffer)
    requires capacity > 0
    ensures Feasible(AllFree(2), TwoTakerRun(capacity, buff), capacity)
    ensures var u := DoAll(AllFree(2), TwoTakerRun(capacity, buff), capacity);
            && u.claimed[buff] == 1 && u.freed == multiset{buff} && HeldByAll(u.socks)[buff] > 0
            && u.socks[0].queue == [Entry(Some(buff), 60)] && !Balanced(u)
  {
    var start, fill, last := [OpenOp(0, true), OpenOp(1, true), BindOp(1, 1), FilterOp(1, 100)], Fill(capacity, buff + 1),
                             [BindOp(0, 1), FrameOp(1, 60, buff, 60)];
    StartEffect(capacity);
    var t1 := DoAll(AllFree(2), start, capacity);
    FillEffect(t1, capacity, buff + 1, capacity);
    var t2 := DoAll(t1, fill, capacity);
    LastEffect(t2, buff, capacity);
    RunsJoin(t1, fill, last, capacity);
    RunsJoin(AllFree(2), start, fill + last, capacity);
    assert start + (fill + last) == TwoTakerRun(capacity, buff);
    assert t1.claimed[buff] == 0;
    var u := DoAll(t2, last, capacity);
    HeldByFirst(u.socks, buff);
    assert (u.freed + HeldByAll(u.socks))[buff] > 1;
  }

  lemma HeldByFirst(socks: seq<Socket>, buff: Buffer)
    requires |socks| == 2 && socks[0].queue == [Entry(Some(buff), 60)]
    ensures HeldByAll(socks)[buff] > 0
  {
    var e := Entry(Some(buff), 60);
    assert [] + [e] == [e];
    HeldPush([], e);
    assert socks[..1][..0] == [] && socks[..1][0] == socks[0];
    assert HeldByAll(socks[..1]) == HeldByAll([]) + Held(socks[0].queue);
  }

  lemma StartEffect(capacity: nat)
    ensures var start := [OpenOp(0, true), OpenOp(1, true), BindOp(1, 1), FilterOp(1, 100)];
            && Feasible(AllFree(2), start, capacity)
            && DoAll(AllFree(2), start, capacity)
               == Tap([FreshSocket(true), FreshSocket(true).(driver := 1, filter := 100)], multiset{}, multiset{})
  {
    var ops3, ops2, ops1 := [OpenOp(1, true), BindOp(1, 1), FilterOp(1, 100)], [BindOp(1, 1), FilterOp(1, 100)],
                            [FilterOp(1, 100)];
    assert ([OpenOp(0, true)] + ops3)[1..] == ops3 && ops3[1..] == ops2 && ops2[1..] == ops1 && ops1[1..] == [];
    var t1 := Do(AllFree(2), OpenOp(0, true), capacity);
    assert AllFree(2).socks == [UNUSED, UNUSED];
    assert t1.socks == [FreshSocket(true), UNUSED];
    var t2 := Do(t1, OpenOp(1, true), capacity);
    assert t2.socks == [FreshSocket(true), FreshSocket(true)];
    var t3 := Do(t2, BindOp(1, 1), capacity);
    assert t3.socks == [FreshSocket(true), FreshSocket(true).(driver := 1)];
    var t4 := Do(t3, FilterOp(1, 100), capacity);
    assert t4.socks == [FreshSocket(true), FreshSocket(true).(driver := 1, filter := 100)];
    assert DoAll(t3, ops1, capacity) == t4 && DoAll(t2, ops2, capacity) == t4 && DoAll(t1, ops3, capacity) == t4;
  }

  lemma LastEffect(t: Tap, buff: Buffer, capacity: nat)
    requires |t.socks| == 2 && t.socks[0] == FreshSocket(true)
    requires t.socks[1].state.Opened? && t.socks[1].driver == 1 && t.socks[1].filter == 100
    requires |t.socks[1].queue| >= capacity > 0
    ensures var last := [BindOp(0, 1), FrameOp(1, 60, buff, 60)];
            && Feasible(t, last, capacity)
            && var u := DoAll(t, last, capacity);
               && |u.socks| == 2 && u.socks[0].queue == [Entry(Some(buff), 60)]
               && u.claimed == t.claimed + multiset{buff} && u.freed == t.freed + multiset{buff}
  {
    hide Filter;
    var last := [BindOp(0, 1), FrameOp(1, 60, buff, 60)];
    var frame: seq<Op> := [FrameOp(1, 60, buff, 60)];
    assert last[1..] == frame && frame[1..] == [];
    var u := Do(t, BindOp(0, 1), capacity);
    assert u.socks[0] == FreshSocket(true).(driver := 1) && u.socks[1] == t.socks[1];
    assert Matches(u.socks[0], 1, 60) && Matches(u.socks[1], 1, 60);
    BothTake(u, buff, capacity);
    assert Feasible(u, frame, capacity) && DoAll(u, frame, capacity) == Do(u, frame[0], capacity);
  }

  // ---- Frames are read in the order in which they came --------------------

  // What an operation adds to a socket's queue: the frame, with its length, if it matches and there is room.
  ghost function ArrivedNow(t: Tap, op: Op, fd: nat, capacity: nat): seq<Entry>
    requires fd < |t.socks|
  {
    if op.FrameOp? && Matches(t.socks[fd], op.driver, op.ethType) && |t.socks[fd].queue| < capacity
    then [Entry(Some(op.buff), op.size)] else []
  }

  ghost function ReadNow(t: Tap, op: Op, fd: nat): seq<Entry>
    requires fd < |t.socks| && Possible(t, op)
  {
    if op == ReadOp(fd) then [t.socks[fd].queue[0]] else []
  }

  ghost function Arrived(t: Tap, ops: seq<Op>, fd: nat, capacity: nat): seq<Entry>
    requires Feasible(t, ops, capacity)
    decreases |ops|
  {
    if ops == [] || fd >= |t.socks| then []
    else ArrivedNow(t, ops[0], fd, capacity) + Arrived(Do(t, ops[0], capacity), ops[1..], fd, capacity)
  }

  ghost function WasRead(t: Tap, ops: seq<Op>, fd: nat, capacity: nat): seq<Entry>
    requires Feasible(t, ops, capacity)
    decreases |ops|
  {
    if ops == [] || fd >= |t.socks| then []
    else ReadNow(t, ops[0], fd) + WasRead(Do(t, ops[0], capacity), ops[1..], fd, capacity)
  }

  // An open socket whose queue holds frames only.
  ghost predicate InUse(t: Tap, fd: nat) {
    fd < |t.socks| && t.socks[fd].state.Opened? && forall k :: 0 <= k < |t.socks[fd].queue| ==> t.socks[fd].queue[k].len > 0
  }

  lemma FrameArrives(t: Tap, driver: Driver, ethType: EtherType, buff: Buffer, size: nat, fd: nat, capacity: nat)
    requires InUse(t, fd) && size > 0 && AtMostOneMatch(t.socks, driver, ethType)
    ensures var u := Filter(t, |t.socks|, driver, ethType, buff, size, capacity).0;
            && InUse(u, fd)
            && u.socks[fd].queue == t.socks[fd].queue + ArrivedNow(t, FrameOp(driver, ethType, buff, size), fd, capacity)
  {
    FilterEffect(t, |t.socks|, driver, ethType, buff, size, capacity, fd);
    hide Filter, Matches, SomeMatch;
    if Matches(t.socks[fd], driver, ethType) {
      OnlyTaker(t.socks, fd, driver, ethType);
    }
  }

  lemma StepIsInOrder(t: Tap, op: Op, fd: nat, capacity: nat)
    requires InOrder(t, capacity) && InUse(t, fd) && op != CloseOp(fd) && op != AbandonOp(fd) && Possible(t, op) && Careful(t, op)
    ensures var u := Do(t, op, capacity);
            && InUse(u, fd)
            && t.socks[fd].queue + ArrivedNow(t, op, fd, capacity) == ReadNow(t, op, fd) + u.socks[fd].queue
  {
    hide Filter, Balanced, Matches, WellKept, DistinctFilters, AtMostOneMatch;
    if op.FrameOp? {
      if op.ethType > ETH_IEEE802_3_MAX_LEN {
        DistinctFiltersSeparate(t.socks, op.driver, op.ethType);
      }
      FrameArrives(t, op.driver, op.ethType, op.buff, op.size, fd, capacity);
    } else if op == ReadOp(fd) {
      assert t.socks[fd].queue == [t.socks[fd].queue[0]] + t.socks[fd].queue[1..];
    }
  }

  // While a socket is open, what it held and what arrived since is, in the same order, what was read from it and
  // what it still holds.
  lemma {:induction false} FramesComeInOrder(t: Tap, ops: seq<Op>, fd: nat, capacity: nat)
    requires InOrder(t, capacity) && InUse(t, fd) && CloseOp(fd) !in ops && AbandonOp(fd) !in ops
    requires Feasible(t, ops, capacity) && Disciplined(t, ops, capacity)
    ensures fd < |DoAll(t, ops, capacity).socks|
    ensures t.socks[fd].queue + Arrived(t, ops, fd, capacity)
            == WasRead(t, ops, fd, capacity) + DoAll(t, ops, capacity).socks[fd].queue
    decreases |ops|
  {
    hide InOrder, Do, Possible, Careful, ArrivedNow, ReadNow;
    if ops != [] {
      var u, rest := Do(t, ops[0], capacity), ops[1..];
      DoKeepsOrder(t, ops[0], capacity);
      StepIsInOrder(t, ops[0], fd, capacity);
      FramesComeInOrder(u, rest, fd, capacity);
      Chain(t.socks[fd].queue, ArrivedNow(t, ops[0], fd, capacity), ReadNow(t, ops[0], fd), u.socks[fd].queue,
            Arrived(u, rest, fd, capacity), WasRead(u, rest, fd, capacity), DoAll(u, rest, capacity).socks[fd].queue);
    }
  }

  lemma Chain(q: seq<Entry>, a: seq<Entry>, r: seq<Entry>, q1: seq<Entry>, as': seq<Entry>, rs: seq<Entry>, q2: seq<Entry>)
    requires q + a == r + q1 && q1 + as' == rs + q2
    ensures q + (a + as') == (r + rs) + q2
  {
    assert q + (a + as') == (q + a) + as';
    assert (r + q1) + as' == r + (q1 + as');
    assert r + (rs + q2) == (r + rs) + q2;
  }

  // Changing filters or drivers touches neither queues nor states.
  lemma OtherFieldsKeep(t: Tap, socks: seq<Socket>, capacity: nat)
    requires |socks| == |t.socks|
    requires forall i :: 0 <= i < |socks| ==> socks[i].queue == t.socks[i].queue && socks[i].state == t.socks[i].state
    ensures WellKept(t, capacity) ==> WellKept(t.(socks := socks), capacity)
    ensures Balanced(t) ==> Balanced(t.(socks := socks))
  {
    SameQueuesSameHeld(t.socks, socks);
  }

  lemma {:induction false} SameQueuesSameHeld(a: seq<Socket>, b: seq<Socket>)
    requires |a| == |b| && forall i :: 0 <= i < |a| ==> a[i].queue == b[i].queue
    ensures HeldByAll(a) == HeldByAll(b)
  {
    if a != [] {
      SameQueuesSameHeld(a[..|a| - 1], b[..|b| - 1]);
    }
  }

  lemma NoOps(t: Tap, capacity: nat)
    ensures Feasible(t, [], capacity) && DoAll(t, [], capacity) == t
  {
  }

  lemma OneOp(t: Tap, op: Op, capacity: nat)
    requires Possible(t, op)
    ensures Feasible(t, [op], capacity) && DoAll(t, [op], capacity) == Do(t, op, capacity)
  {
    hide Do, Possible;
    assert [op][1..] == [];
    NoOps(Do(t, op, capacity), capacity);
  }

  // ---- The table as the source keeps it -----------------------------------

  // What close returns: -1 with EBADF, 0, or -1 with the descriptor left closing for ever.
  datatype CloseResult = NotOpen | Closed | Stuck

  datatype ReadResult = Bytes(buff: Buffer, count: nat) | CloseSignal | Zero | Error(errno: Errno) | WouldBlock

  // The arguments of read: with size 0 the data is an extended buffer, whose frame part may be missing.
  datatype Destination = Destination(size: nat, frameSize: nat, missing: bool)

  // An open socket and arguments that fit its mode
  ghost predicate ReadyToRead(s: Socket, dest: Destination) {
    s.state.Opened? && (s.timeStamp <==> dest.size == 0) && !(dest.size == 0 && dest.missing)
  }

  class Table {
    const sockets: array<Socket>   // s_l2tap_sockets
    const queueSize: nat           // RX_QUEUE_MAX_SIZE
    ghost var claimed: multiset<Buffer>
    ghost var freed: multiset<Buffer>

    ghost function View(): Tap
      reads this, sockets
    {
      Tap(sockets[..], claimed, freed)
    }

    constructor (maxFds: nat, queueSize: nat)
      requires queueSize > 0
      ensures fresh(sockets) && this.queueSize == queueSize
      ensures View() == AllFree(maxFds) && InOrder(View(), queueSize)
    {
      sockets := new Socket[maxFds](_ => UNUSED);
      this.queueSize := queueSize;
      claimed, freed := multiset{}, multiset{};
      new;
      NothingHeld(sockets[..]);
      assert sockets[..] == AllFree(maxFds).socks;
    }

    // l2tap_open: the first free descriptor, or -1; queueMade says whether its queue could be created
    method OpenSocket(nonBlock: bool, queueMade: bool) returns (fd: int)
      modifies sockets
      ensures -1 <= fd < sockets.Length
      ensures fd == -1 <==> !queueMade || forall i :: 0 <= i < sockets.Length ==> !old(sockets[i].state.Ready?)
      ensures fd != -1 ==> old(sockets[fd].state.Ready?) && forall i :: 0 <= i < fd ==> !old(sockets[i].state.Ready?)
      ensures View() == if fd == -1 then old(View()) else Open(old(View()), fd, nonBlock)
    {
      ghost var before := sockets[..];
      fd := 0;
      while fd < sockets.Length
        invariant 0 <= fd <= sockets.Length
        invariant sockets[..] == before
        invariant forall i :: 0 <= i < fd ==> !before[i].state.Ready?
      {
        if sockets[fd].state.Ready? {
          if !queueMade {
            return -1;
          }
          sockets[fd] := FreshSocket(nonBlock);
          return;
        }
        fd := fd + 1;
      }
      return -1;
    }

    // flush_rx_queue
    method FlushQueue(fd: nat)
      requires fd < sockets.Length
      modifies `freed, sockets
      ensures sockets[..] == old(sockets[..])[fd := old(sockets[fd]).(queue := [])]
      ensures freed == old(freed) + Held(old(sockets[fd].queue))
    {
      ghost var before := sockets[..];
      var queue := sockets[fd].queue;
      while queue != []
        invariant sockets[..] == before
        invariant freed + Held(queue) == old(freed) + Held(before[fd].queue)
        decreases |queue|
      {
        HeldPop(queue);
        freed := freed + Owned(queue[0]);
        queue := queue[1..];
      }
      sockets[fd] := sockets[fd].(queue := queue);
    }

    // l2tap_close with no reader waiting; taskMade says whether its semaphore and its task could be created
    method CloseSocket(fd: nat, taskMade: bool) returns (r: CloseResult)
      requires fd < sockets.Length
      modifies `freed, sockets
      ensures r == if !old(sockets[fd].state.Opened?) then NotOpen else if taskMade then Closed else Stuck
      ensures View() == match r
                        case NotOpen => old(View())
                        case Closed => Close(old(View()), fd)
                        case Stuck => Abandon(old(View()), fd)
    {
      if !sockets[fd].state.Opened? {
        return NotOpen;
      }
      ghost var before := sockets[..];
      sockets[fd] := sockets[fd].(state := Closing);
      if !taskMade {
        return Stuck;
      }
      FlushQueue(fd);
      sockets[fd] := sockets[fd].(state := Ready);
      assert sockets[..] == before[fd := before[fd].(state := Ready, queue := [])];
      return Closed;
    }

    // esp_vfs_l2tap_eth_filter_frame; left is *size afterwards
    method FilterFrame(driver: Driver, ethType: EtherType, buff: Buffer, size: nat) returns (left: nat)
      modifies this, sockets
      ensures (View(), left) == Filter(old(View()), sockets.Length, driver, ethType, buff, size, queueSize)
    {
      left := size;
      ghost var before := View();
      for i := 0 to sockets.Length
        invariant (View(), left) == Filter(before, i, driver, ethType, buff, size, queueSize)
      {
        ghost var now, offered := View(), left;
        assert now.socks[i] == before.socks[i];
        if Matches(sockets[i], driver, ethType) {
          claimed := claimed + Owned(Entry(Some(buff), left));
          if |sockets[i].queue| < queueSize {
            sockets[i] := sockets[i].(queue := sockets[i].queue + [Entry(Some(buff), left)]);
            assert freed == now.freed + multiset{};
          } else {
            freed := freed + multiset{buff};
          }
          assert sockets[..] == now.socks[i := Deliver(before.socks[i], buff, offered, queueSize)];
          left := 0;
        }
      }
    }

    // l2tap_read and pop_rx_queue, up to the point where an empty queue would block
    method Read(fd: nat, dest: Destination) returns (r: ReadResult)
      requires fd < sockets.Length && WellKept(View(), queueSize)
      modifies `freed, sockets
      ensures var s := old(sockets[fd]);
              && (r == Error(EBADF) <==> !s.state.Opened?)
              && (r == Error(EINVAL) <==> s.state.Opened? && s.timeStamp && dest.size != 0)
              && (r == Zero <==> s.state.Opened? && !s.timeStamp && dest.size == 0)
              && (r == Error(EFAULT) <==> s.state.Opened? && s.timeStamp && dest.size == 0 && dest.missing)
      ensures var s := old(sockets[fd]);
              ReadyToRead(s, dest) ==>
                if s.queue == [] then r == if s.nonBlock then Error(EAGAIN) else WouldBlock
                else if s.queue[0].len == 0 then r == CloseSignal
                else
                  var room, len := if s.timeStamp then dest.frameSize else dest.size, s.queue[0].len;
                  && r.Bytes? && s.queue[0].buff == Some(r.buff)
                  && r.count <= room && r.count <= len && (r.count == room || r.count == len)
      ensures View() == if r.Bytes? || r.CloseSignal? then Pop(old(View()), fd) else old(View())
    {
      var s := sockets[fd];
      if !s.state.Opened? {
        return Error(EBADF);
      }
      var size := dest.size;
      if s.timeStamp && size != 0 {
        return Error(EINVAL);
      }
      if !s.timeStamp && size == 0 {
        return Zero;
      }
      if size == 0 && dest.missing {
        return Error(EFAULT);
      }
      if s.queue == [] {
        return if s.nonBlock then Error(EAGAIN) else WouldBlock;
      }
      var e := s.queue[0];
      freed := freed + Owned(e);
      if e.len == 0 {
        sockets[fd] := s.(queue := s.queue[1..] + [Entry(None, 0)]);
        return CloseSignal;
      }
      sockets[fd] := s.(queue := s.queue[1..]);
      var room := if size == 0 then dest.frameSize else size;
      return Bytes(e.buff.value, if room > e.len then e.len else room);
    }

    // l2tap_ioctl, L2TAP_S_RCV_FILTER
    method IoctlSetFilter(fd: nat, filter: EtherType) returns (r: Option<Errno>)
      requires fd < sockets.Length
      modifies sockets
      ensures (sockets[..], r) == SetFilter(old(sockets[..]), fd, filter)
    {
      ghost var before := sockets[..];
      if sockets[fd].driver == 0 {
        return Some(EACCES);
      }
      if sockets[fd].filter != filter {
        for i := 0 to sockets.Length
          invariant sockets[..] == before
          invariant forall j :: 0 <= j < i ==>
                      !(before[j].state.Opened? && before[j].driver == before[fd].driver && before[j].filter == filter)
        {
          if sockets[i].state.Opened? && sockets[i].driver == sockets[fd].driver && sockets[i].filter == filter {
            return Some(EINVAL);
          }
        }
        sockets[fd] := sockets[fd].(filter := filter);
      }
      return None;
    }

    // l2tap_ioctl, L2TAP_S_DEVICE_DRV_HNDL
    method IoctlSetDriver(fd: nat, driver: Driver) returns (r: Option<Errno>)
      requires fd < sockets.Length
      modifies sockets
      ensures r == if driver == 0 then Some(ENODEV) else None
      ensures sockets[..] == if driver == 0 then old(sockets[..]) else Bind(old(sockets[..]), fd, driver)
    {
      if driver == 0 {
        return Some(ENODEV);
      }
      sockets[fd] := sockets[fd].(driver := driver);
      return None;
    }

    // l2tap_ioctl, L2TAP_S_INTF_DEVICE: none when no interface has the key; a driver that is NULL is not refused.
    method IoctlSetInterface(fd: nat, driver: Option<Driver>) returns (r: Option<Errno>)
      requires fd < sockets.Length
      modifies sockets
      ensures r == if driver.None? then Some(ENODEV) else None
      ensures sockets[..] == if driver.None? then old(sockets[..]) else Bind(old(sockets[..]), fd, driver.value)
    {
      if driver.None? {
        return Some(ENODEV);
      }
      sockets[fd] := sockets[fd].(driver := driver.value);
      return None;
    }

    // One call; ops is what it did, as an operation of the runs.
    method Handle(call: Call) returns (ghost ops: seq<Op>)
      requires WellKept(View(), queueSize) && Fits(call, sockets.Length)
      modifies this, sockets
      ensures Feasible(old(View()), ops, queueSize) && View() == DoAll(old(View()), ops, queueSize)
    {
      hide Open, Close, Abandon, Pop, Filter, SetFilter, Bind, WellKept, DoAll, Feasible;
      ghost var before := View();
      NoOps(before, queueSize);
      match call {
        case OpenCall(nonBlock, queueMade) =>
          var fd := OpenSocket(nonBlock, queueMade);
          ops := if fd == -1 then [] else [OpenOp(fd, nonBlock)];
        case CloseCall(fd, taskMade) =>
          var r := CloseSocket(fd, taskMade);
          ops := match r case NotOpen => [] case Closed => [CloseOp(fd)] case Stuck => [AbandonOp(fd)];
        case FilterCall(fd, filter) =>
          var _ := IoctlSetFilter(fd, filter);
          ops := [FilterOp(fd, filter)];
        case DriverCall(fd, driver) =>
          var r := IoctlSetDriver(fd, driver);
          ops := if r.None? then [BindOp(fd, driver)] else [];
        case InterfaceCall(fd, driver) =>
          var r := IoctlSetInterface(fd, driver);
          ops := if r.None? then [BindOp(fd, driver.value)] else [];
        case FrameCall(driver, ethType, buff, size) =>
          var _ := FilterFrame(driver, ethType, buff, size);
          ops := [FrameOp(driver, ethType, buff, size)];
        case ReadCall(fd, dest) =>
          var r := Read(fd, dest);
          ops := if r.Bytes? || r.CloseSignal? then [ReadOp(fd)] else [];
      }
      if ops != [] {
        assert ops == [ops[0]];
        OneOp(before, ops[0], queueSize);
      }
    }
  }

  // The calls of the file system and of the drivers
  datatype Call =
    | OpenCall(nonBlock: bool, queueMade: bool)
    | CloseCall(fd: nat, taskMade: bool)
    | FilterCall(fd: nat, filter: EtherType)
    | DriverCall(fd: nat, driver: Driver)
    | InterfaceCall(fd: nat, interface: Option<Driver>)
    | FrameCall(driver: Driver, ethType: EtherType, buff: Buffer, size: nat)
    | ReadCall(fd: nat, dest: Destination)

  // Descriptors are those of the table, and drivers hand over frames that are not empty.
  predicate Fits(call: Call, n: nat) {
    match call
    case OpenCall(_, _) => true
    case FrameCall(driver, _, _, size) => driver != 0 && size > 0
    case _ => call.fd < n
  }

  // A new table through any calls: it is what a run of operations makes of it; every buffer taken over is queued or was
  // freed as often, unless a frame met a late taker with a full queue; and filters are distinct after a disciplined run.
  method HandleAll(maxFds: nat, queueSize: nat, calls: seq<Call>) returns (table: Table, ghost ops: seq<Op>)
    requires queueSize > 0 && forall call :: call in calls ==> Fits(call, maxFds)
    ensures fresh(table) && fresh(table.sockets)
    ensures Feasible(AllFree(maxFds), ops, queueSize)
    ensures table.View() == DoAll(AllFree(maxFds), ops, queueSize)
    ensures Balanced(table.View()) <==> NeverLateAndFull(AllFree(maxFds), ops, queueSize)
    ensures table.claimed <= table.freed + HeldByAll(table.sockets[..])
    ensures Disciplined(AllFree(maxFds), ops, queueSize) ==> InOrder(table.View(), queueSize)
  {
    hide WellKept, Balanced, DistinctFilters, Fits;
    ghost var first := AllFree(maxFds);
    table := new Table(maxFds, queueSize);
    ops := [];
    NothingOff(first);
    for i := 0 to |calls|
      invariant fresh(table) && fresh(table.sockets) && table.sockets.Length == maxFds && table.queueSize == queueSize
      invariant Feasible(first, ops, queueSize) && table.View() == DoAll(first, ops, queueSize)
    {
      RunLedger(first, ops, queueSize, multiset{});
      ghost var more := table.Handle(calls[i]);
      RunsJoin(first, ops, more, queueSize);
      ops := ops + more;
    }
    RunBalancedIff(first, ops, queueSize);
    if Disciplined(first, ops, queueSize) {
      RunsStayInOrder(first, ops, queueSize);
    }
  }
}
