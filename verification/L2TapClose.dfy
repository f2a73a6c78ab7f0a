/**
  The close handshake of esp_vfs_l2tap.c: readers that are already inside l2tap_read when a socket is closed are
  let go one after the other by a single empty entry, and only then the clean task deletes the queue.

  Each event is one queue operation of one task. The clean task runs at idle priority: it moves only when no
  reader can. The socket is already in its closing state, so no frame and no new reader arrives.
*/
module L2TapClose {
  import opened L2TapSockets
  import opened Options

  // How far l2tap_clean_task and the waiting l2tap_close have come.
  datatype Phase = Flushing | Signalling | Awaiting | Deleting | Finishing | Done

  datatype Closing = Closing(
    queue: seq<Entry>,
    waiting: nat,        // readers before their xQueueReceive returns
    holding: nat,        // readers that took the empty entry and have not passed it on yet
    gotData: nat,        // readers that returned with a frame
    gotZero: nat,        // readers that returned with length 0
    phase: Phase,
    queueExists: bool,
    lost: nat,           // empty entries that could not be passed on because the queue was full
    freed: multiset<Buffer>)

  datatype Event = TakeFrame | TakeSignal | PassOn | Flush | Signal | AwaitTurn | Delete | Finish

  const SIGNAL := Entry(None, 0)

  // A reader that can move is served before the clean task.
  predicate ReaderCanMove(s: Closing) {
    s.holding > 0 || (s.waiting > 0 && s.queue != [])
  }

  predicate Enabled(s: Closing, ev: Event) {
    match ev
    case TakeFrame => s.waiting > 0 && s.queue != [] && s.queue[0].len > 0
    case TakeSignal => s.waiting > 0 && s.queue != [] && s.queue[0].len == 0
    case PassOn => s.holding > 0
    case Flush => s.phase.Flushing? && !ReaderCanMove(s)
    case Signal => s.phase.Signalling? && !ReaderCanMove(s)
    case AwaitTurn => s.phase.Awaiting? && !ReaderCanMove(s) && s.queue != []
    case Delete => s.phase.Deleting? && !ReaderCanMove(s)
    case Finish => s.phase.Finishing?
  }

  // push_rx_queue of an empty entry
  function Push(s: Closing, capacity: nat): Closing {
    if |s.queue| < capacity then s.(queue := s.queue + [SIGNAL]) else s.(lost := s.lost + 1)
  }

  ghost function Step(s: Closing, ev: Event, capacity: nat): Closing
    requires Enabled(s, ev)
  {
    match ev
    case TakeFrame =>
      s.(queue := s.queue[1..], waiting := s.waiting - 1, gotData := s.gotData + 1,
         freed := s.freed + Owned(s.queue[0]))
    case TakeSignal => s.(queue := s.queue[1..], waiting := s.waiting - 1, holding := s.holding + 1)
    case PassOn => Push(s.(holding := s.holding - 1, gotZero := s.gotZero + 1), capacity)
    case Flush => s.(queue := [], phase := Signalling, freed := s.freed + Held(s.queue))
    case Signal => Push(s.(phase := Awaiting), capacity)
    case AwaitTurn => Push(s.(queue := s.queue[1..], phase := Deleting), capacity)
    case Delete => s.(queue := [], queueExists := false, phase := Finishing)
    case Finish => s.(phase := Done)
  }

  // n readers are inside l2tap_read when close begins. The queue may hold empty entries already, which a frame with a
  // second taker left in it, and some readers may have taken one and have its place in the queue to pass it on.
  ghost predicate Begins(s: Closing, n: nat, capacity: nat) {
    && s.waiting + s.holding == n && s.gotData == 0 && s.gotZero == 0 && s.lost == 0
    && s.phase.Flushing? && s.queueExists && |s.queue| + s.holding <= capacity
  }

  ghost predicate Inv(s: Closing, n: nat, all: multiset<Buffer>, capacity: nat) {
    && s.waiting + s.holding + s.gotData + s.gotZero == n
    && s.lost == 0
    && s.freed + Held(s.queue) == all
    && (s.phase.Flushing? ==> |s.queue| + s.holding <= capacity)
    && (s.phase.Signalling? ==> s.queue == [] && s.holding == 0)
    // behind the flush exactly one empty entry is on its way, in the queue or in a reader's hands
    && (s.phase.Awaiting? || s.phase.Deleting? ==>
          (s.holding == 0 && s.queue == [SIGNAL]) || (s.holding == 1 && s.queue == []))
    && (s.phase.Deleting? || s.phase.Finishing? || s.phase.Done? ==> s.waiting == 0 && s.holding == 0)
    && s.queueExists == !(s.phase.Finishing? || s.phase.Done?)
    && (s.phase.Finishing? || s.phase.Done? ==> s.queue == [])
  }

  lemma SignalHoldsNothing()
    ensures Held([SIGNAL]) == multiset{} && Held([]) == multiset{}
  {
    assert [SIGNAL][..0] == [];
  }

  lemma EmptyEntryPopped(queue: seq<Entry>)
    requires queue != [] && queue[0].len == 0
    ensures Held(queue[1..]) == Held(queue)
  {
    HeldPop(queue);
    assert multiset{} + Held(queue[1..]) == Held(queue[1..]);
  }

  lemma SignalPushed(queue: seq<Entry>)
    ensures Held(queue + [SIGNAL]) == Held(queue)
  {
    HeldPush(queue, SIGNAL);
  }

  lemma StepInv(s: Closing, ev: Event, n: nat, all: multiset<Buffer>, capacity: nat)
    requires Inv(s, n, all, capacity) && Enabled(s, ev) && capacity > 0
    ensures Inv(Step(s, ev, capacity), n, all, capacity)
  {
    hide Held, Owned;
    SignalHoldsNothing();
    var t := Step(s, ev, capacity);
    match ev
    case TakeFrame =>
      HeldPop(s.queue);
      assert t.freed + Held(t.queue) == s.freed + (Owned(s.queue[0]) + Held(t.queue));
    case TakeSignal => EmptyEntryPopped(s.queue);
    case Flush => assert t.freed + multiset{} == t.freed;
    case PassOn =>
      assert s.queue == [] ==> s.queue + [SIGNAL] == [SIGNAL];
      SignalPushed(s.queue);
    case Signal => assert [] + [SIGNAL] == [SIGNAL];
    case AwaitTurn => assert s.queue[1..] + [SIGNAL] == [SIGNAL];
    case Delete => assert s.queue == [SIGNAL];
    case Finish =>
  }

  // Work left: every event makes it smaller, so every run ends.
  function Rank(p: Phase): nat {
    match p
    case Flushing => 5
    case Signalling => 4
    case Awaiting => 3
    case Deleting => 2
    case Finishing => 1
    case Done => 0
  }

  function Work(s: Closing): nat {
    2 * s.waiting + s.holding + Rank(s.phase)
  }

  lemma StepShrinksWork(s: Closing, ev: Event, capacity: nat)
    requires Enabled(s, ev)
    ensures Work(Step(s, ev, capacity)) < Work(s)
  {
  }

  // Until close has returned some task can always move: nobody waits for ever.
  lemma SomeoneCanMove(s: Closing, n: nat, all: multiset<Buffer>, capacity: nat)
    requires Inv(s, n, all, capacity) && !s.phase.Done?
    ensures exists ev :: Enabled(s, ev)
  {
    var ev :=
      if s.holding > 0 then PassOn
      else if s.waiting > 0 && s.queue != [] then (if s.queue[0].len > 0 then TakeFrame else TakeSignal)
      else match s.phase
        case Flushing => Flush
        case Signalling => Signal
        case Awaiting => AwaitTurn
        case Deleting => Delete
        case Finishing => Finish
        case Done => Finish;
    assert Enabled(s, ev);
  }

  ghost predicate Legal(s: Closing, evs: seq<Event>, capacity: nat)
    decreases |evs|
  {
    evs == [] || (Enabled(s, evs[0]) && Legal(Step(s, evs[0], capacity), evs[1..], capacity))
  }

  ghost function After(s: Closing, evs: seq<Event>, capacity: nat): Closing
    requires Legal(s, evs, capacity)
    decreases |evs|
  {
    if evs == [] then s else After(Step(s, evs[0], capacity), evs[1..], capacity)
  }

  lemma {:induction false} RunInv(s: Closing, evs: seq<Event>, n: nat, all: multiset<Buffer>, capacity: nat)
    requires Inv(s, n, all, capacity) && Legal(s, evs, capacity) && capacity > 0
    ensures Inv(After(s, evs, capacity), n, all, capacity)
    ensures |evs| + Work(After(s, evs, capacity)) <= Work(s)
    decreases |evs|
  {
    hide Inv, Step, Work;
    if evs != [] {
      StepInv(s, evs[0], n, all, capacity);
      StepShrinksWork(s, evs[0], capacity);
      RunInv(Step(s, evs[0], capacity), evs[1..], n, all, capacity);
    }
  }

  // For any number of readers, any queue and any order of moves: the run is no longer than 2 n + 5 events; the queue
  // is deleted only when every reader has returned; no empty entry is ever lost; and a run that cannot continue
  // has closed the socket, let every reader return and freed every buffer that was queued.
  lemma CloseHandshake(s: Closing, evs: seq<Event>, n: nat, capacity: nat)
    requires Begins(s, n, capacity) && Legal(s, evs, capacity) && capacity > 0
    ensures var t := After(s, evs, capacity);
            && |evs| <= 2 * n + 5
            && (!t.queueExists ==> t.gotData + t.gotZero == n && t.freed == s.freed + Held(s.queue))
            && t.lost == 0
            && ((forall ev :: !Enabled(t, ev)) ==> t.phase.Done? && !t.queueExists)
  {
    var all := s.freed + Held(s.queue);
    RunInv(s, evs, n, all, capacity);
    var t := After(s, evs, capacity);
    SignalHoldsNothing();
    if !t.phase.Done? {
      SomeoneCanMove(t, n, all, capacity);
    }
  }

  // The frames in a queue
  function Frames(queue: seq<Entry>): nat {
    if queue == [] then 0 else (if queue[0].len > 0 then 1 else 0) + Frames(queue[1..])
  }

  lemma {:induction false} SignalIsNoFrame(queue: seq<Entry>)
    ensures Frames(queue + [SIGNAL]) == Frames(queue)
  {
    if queue == [] {
      assert [] + [SIGNAL] == [SIGNAL] && [SIGNAL][1..] == [];
    } else {
      SignalIsNoFrame(queue[1..]);
      assert (queue + [SIGNAL])[1..] == queue[1..] + [SIGNAL];
    }
  }

  lemma StepDelivers(s: Closing, ev: Event, capacity: nat)
    requires Enabled(s, ev)
    ensures var t := Step(s, ev, capacity);
            && (s.phase.Flushing? && t.phase.Flushing? ==> t.gotData + Frames(t.queue) == s.gotData + Frames(s.queue))
            && t.gotData + Frames(t.queue) <= s.gotData + Frames(s.queue)
            && t.gotData + t.gotZero == s.gotData + s.gotZero + if ev.TakeFrame? || ev.PassOn? then 1 else 0
  {
    SignalIsNoFrame(s.queue);
    if s.queue != [] {
      SignalIsNoFrame(s.queue[1..]);
    }
  }

  // Every reader that returns with data got a frame of its own: while the queue is not flushed, readers with data and
  // frames that are left make up the frames there were; never are there more readers with data.
  lemma {:induction false} DataComesFromFrames(s: Closing, evs: seq<Event>, capacity: nat)
    requires Legal(s, evs, capacity)
    ensures var t := After(s, evs, capacity);
            && t.gotData + Frames(t.queue) <= s.gotData + Frames(s.queue)
            && (s.phase.Flushing? && t.phase.Flushing? ==> t.gotData + Frames(t.queue) == s.gotData + Frames(s.queue))
    decreases |evs|
  {
    if evs != [] {
      StepDelivers(s, evs[0], capacity);
      PhasesAdvance(Step(s, evs[0], capacity), evs[1..], capacity);
      hide Frames;
      DataComesFromFrames(Step(s, evs[0], capacity), evs[1..], capacity);
    }
  }

  // The phase of flushing does not come back.
  lemma {:induction false} PhasesAdvance(s: Closing, evs: seq<Event>, capacity: nat)
    requires Legal(s, evs, capacity)
    ensures Rank(After(s, evs, capacity).phase) <= Rank(s.phase)
    decreases |evs|
  {
    if evs != [] {
      PhasesAdvance(Step(s, evs[0], capacity), evs[1..], capacity);
    }
  }

  lemma StepAfterFlush(s: Closing, ev: Event, n: nat, all: multiset<Buffer>, capacity: nat)
    requires Inv(s, n, all, capacity) && !s.phase.Flushing? && Enabled(s, ev) && capacity > 0
    ensures Step(s, ev, capacity).gotData == s.gotData && !Step(s, ev, capacity).phase.Flushing?
  {
    hide Held, Owned;
  }

  // Once the clean task has flushed the queue, no reader gets a frame any more: all that are still inside
  // return length 0.
  lemma {:induction false} OnlyZeroAfterFlush(s: Closing, evs: seq<Event>, n: nat, all: multiset<Buffer>, capacity: nat)
    requires Inv(s, n, all, capacity) && !s.phase.Flushing? && Legal(s, evs, capacity) && capacity > 0
    ensures After(s, evs, capacity).gotData == s.gotData
    decreases |evs|
  {
    hide Inv, Step, Enabled;
    if evs != [] {
      StepInv(s, evs[0], n, all, capacity);
      StepAfterFlush(s, evs[0], n, all, capacity);
      OnlyZeroAfterFlush(Step(s, evs[0], capacity), evs[1..], n, all, capacity);
    }
  }
}
