/**
  Information records of an extended L2 TAP buffer: the macros of esp_vfs_l2tap.h and the search for the
  time-stamp record in esp_vfs_l2tap.c. Sizes and pointers are 32-bit, and their sums wrap.
*/
module L2TapRecords {
  import opened Options

  const WORD_LIMIT: nat := 0x1_0000_0000
  const HEADER_SIZE: nat := 8       // sizeof(l2tap_irec_hdr_t): length and type, data aligned to 8
  const TIMESPEC_SIZE: nat := 16    // sizeof(struct timespec): 64-bit seconds, 32-bit nanoseconds, padding

  type Word = n: nat | n < 0x1_0000_0000

  const TYPE_INVALID: Word := 0xFFFF_FFFF   // -1
  const TYPE_TIME_STAMP: Word := 1

  type Pointer = Word

  const NULL: Pointer := 0

  // Pointer and size arithmetic
  function Plus(p: Word, n: Word): Word {
    if p + n < WORD_LIMIT then p + n else p + n - WORD_LIMIT
  }

  // L2TAP_ALIGN: (size + 7) & ~7
  function Align(size: Word): (r: Word)
    ensures r % 8 == 0
  {
    var up := Plus(size, 7);
    up - up % 8
  }

  // The aligned size is the least multiple of 8 that is not below the size, unless the addition wraps.
  lemma AlignIsLeastMultiple(size: Word)
    requires size <= WORD_LIMIT - 8
    ensures Align(size) % 8 == 0 && size <= Align(size)
    ensures forall m: nat :: m % 8 == 0 && size <= m ==> Align(size) <= m
  {
    forall m: nat | m % 8 == 0 && size <= m
      ensures Align(size) <= m
    {
      assert (size + 7) / 8 <= m / 8;
      assert Align(size) == 8 * ((size + 7) / 8);
    }
  }

  // It is below the size exactly when the addition wraps.
  lemma AlignWraps(size: Word)
    ensures Align(size) < size <==> size > WORD_LIMIT - 8
    ensures Align(size) == 0 <==> size == 0 || size > WORD_LIMIT - 8
  {
  }

  // Eight bytes of memory as two words: of a header the length and the type.
  datatype Cell = Cell(low: Word, high: Word)

  // Memory by address, in and around a buffer.
  type Memory = map<Pointer, Cell>

  // l2tap_extended_buff_t: info_recs_buff, info_recs_len, and the memory it lies in
  datatype Buffer = Buffer(base: Pointer, total: Word, mem: Memory)

  // The buffer ends within the address space. Where its alignment leads there is something to read.
  ghost predicate Located(b: Buffer) {
    && b.base + b.total < WORD_LIMIT
    && forall p: Pointer :: p % 8 == b.base % 8 ==> p in b.mem
  }

  // L2TAP_IREC_FIRST
  function First(b: Buffer): Pointer {
    if b.total >= HEADER_SIZE then b.base else NULL
  }

  // L2TAP_IREC_NEXT
  function Next(b: Buffer, cur: Pointer): Pointer
    requires b.base + b.total < WORD_LIMIT && (cur != NULL ==> cur in b.mem)
  {
    if cur == NULL then First(b)
    else if Plus(Plus(cur, Align(b.mem[cur].low)), Align(HEADER_SIZE)) > b.base + b.total then NULL
    else Plus(cur, Align(b.mem[cur].low))
  }

  lemma NextKeepsAlignment(b: Buffer, cur: Pointer)
    requires b.base + b.total < WORD_LIMIT && cur in b.mem && cur != NULL
    ensures Next(b, cur) == NULL || Next(b, cur) % 8 == cur % 8
  {
    assert Align(HEADER_SIZE) == HEADER_SIZE;
    hide Align;
  }

  // A header at p lies in the buffer.
  predicate InBounds(b: Buffer, p: Pointer) {
    b.base <= p && p + HEADER_SIZE <= b.base + b.total
  }

  // What a record's length must be for the step from it: positive when aligned, and such that behind it the address
  // space has room for another header, or ends exactly.
  predicate LeadsForward(b: Buffer, p: Pointer)
    requires p in b.mem
  {
    var size := Align(b.mem[p].low);
    size > 0 && (p + size + HEADER_SIZE < WORD_LIMIT || p + size == WORD_LIMIT)
  }

  // From a record in the buffer the macro leads on to one further behind in the buffer, or to the end, if and only if
  // the record's length is such.
  lemma StepIff(b: Buffer, p: Pointer)
    requires b.base + b.total < WORD_LIMIT && p in b.mem && p != NULL && InBounds(b, p)
    ensures Next(b, p) == NULL || (p < Next(b, p) && InBounds(b, Next(b, p))) <==> LeadsForward(b, p)
  {
  }

  // A record leads to itself exactly when its header ends in front of the end and its aligned length is 0.
  lemma StandsStillIff(b: Buffer, p: Pointer)
    requires b.base + b.total < WORD_LIMIT && p in b.mem && p != NULL
    ensures Next(b, p) == p
            <==> Plus(p, HEADER_SIZE) <= b.base + b.total && (b.mem[p].low == 0 || b.mem[p].low > WORD_LIMIT - 8)
  {
  }

  // ---- Walking from record to record ---------------------------------------

  // Where the walk is after k steps.
  ghost function At(b: Buffer, k: nat): (p: Pointer)
    requires Located(b)
    ensures p != NULL ==> p % 8 == b.base % 8 && p in b.mem
  {
    if k == 0 then First(b)
    else if At(b, k - 1) == NULL then NULL
    else
      NextKeepsAlignment(b, At(b, k - 1));
      Next(b, At(b, k - 1))
  }

  // Step k ends the walk, or goes on to a header further behind in the buffer.
  ghost predicate GoodStep(b: Buffer, k: nat)
    requires Located(b)
  {
    At(b, k + 1) == NULL || (At(b, k) < At(b, k + 1) && InBounds(b, At(b, k + 1)))
  }

  ghost predicate ForwardAt(b: Buffer, k: nat)
    requires Located(b)
  {
    At(b, k) != NULL && LeadsForward(b, At(b, k))
  }

  // The walk is over, or has found a record of the type that is sought.
  ghost predicate Stops(b: Buffer, sought: Option<Word>, k: nat)
    requires Located(b)
  {
    At(b, k) == NULL || sought == Some(b.mem[At(b, k)].high)
  }

  // The walk goes past the record it visits at step k.
  ghost predicate Passes(b: Buffer, sought: Option<Word>, k: nat)
    requires Located(b)
  {
    forall j: nat :: j <= k ==> !Stops(b, sought, j)
  }

  // The walk stops, after steps that all went forward inside the buffer.
  ghost predicate EndsWell(b: Buffer, sought: Option<Word>)
    requires Located(b)
  {
    exists n: nat :: Stops(b, sought, n) && forall k: nat :: k < n ==> GoodStep(b, k)
  }

  lemma {:induction false} OverIsOver(b: Buffer, j: nat, k: nat)
    requires Located(b) && j <= k && At(b, j) == NULL
    ensures At(b, k) == NULL
    decreases k
  {
    if j < k {
      OverIsOver(b, j, k - 1);
    }
  }

  // Good steps stay in the buffer and each go on by at least the size of a header.
  lemma {:induction false} GoodStepsAdvance(b: Buffer, n: nat)
    requires Located(b) && forall k: nat :: k < n ==> GoodStep(b, k)
    ensures At(b, n) == NULL || (InBounds(b, At(b, n)) && At(b, n) >= b.base + HEADER_SIZE * n)
  {
    hide Next;
    if n > 0 {
      GoodStepsAdvance(b, n - 1);
      assert GoodStep(b, n - 1);
    }
  }

  lemma {:induction false} ForwardIsGood(b: Buffer, n: nat)
    requires Located(b) && forall k: nat :: k < n ==> ForwardAt(b, k)
    ensures forall k: nat :: k < n ==> GoodStep(b, k)
  {
    if n > 0 {
      ForwardIsGood(b, n - 1);
      assert ForwardAt(b, n - 1);
      GoodStepIff(b, n - 1);
    }
  }

  lemma GoodStepIff(b: Buffer, k: nat)
    requires Located(b) && At(b, k) != NULL && forall j: nat :: j < k ==> GoodStep(b, j)
    ensures GoodStep(b, k) <==> ForwardAt(b, k)
  {
    hide Next, LeadsForward;
    GoodStepsAdvance(b, k);
    StepIff(b, At(b, k));
  }

  // The search for a type, or the whole walk, stops after steps that all went forward inside the buffer, if and only
  // if every record it goes past has a length that leads forward.
  lemma EndsWellIff(b: Buffer, sought: Option<Word>)
    requires Located(b)
    ensures EndsWell(b, sought) <==> forall k: nat :: Passes(b, sought, k) ==> ForwardAt(b, k)
  {
    hide At, GoodStep, ForwardAt, Stops;
    if EndsWell(b, sought) {
      var n: nat :| Stops(b, sought, n) && forall k: nat :: k < n ==> GoodStep(b, k);
      forall k: nat | Passes(b, sought, k)
        ensures ForwardAt(b, k)
      {
        assert k < n;
        RunningIsSome(b, sought, k);
        GoodStepIff(b, k);
      }
    }
    if forall k: nat :: Passes(b, sought, k) ==> ForwardAt(b, k) {
      var n := FirstStop(b, sought, b.total + 1);
      forall k: nat | k < n
        ensures ForwardAt(b, k)
      {
        assert Passes(b, sought, k);
      }
      ForwardIsGood(b, n);
      GoodStepsAdvance(b, n);
      if !Stops(b, sought, n) {
        RunningIsSome(b, sought, n);
        assert false;
      }
      assert Stops(b, sought, n) && forall k: nat :: k < n ==> GoodStep(b, k);
    }
  }

  lemma RunningIsSome(b: Buffer, sought: Option<Word>, k: nat)
    requires Located(b) && !Stops(b, sought, k)
    ensures At(b, k) != NULL
  {
  }

  // The first step at which the walk stops, up to a limit
  ghost function FirstStop(b: Buffer, sought: Option<Word>, limit: nat): (n: nat)
    requires Located(b)
    ensures n <= limit && (n < limit ==> Stops(b, sought, n))
    ensures forall k: nat :: k < n ==> !Stops(b, sought, k)
  {
    if limit == 0 then 0
    else
      var n := FirstStop(b, sought, limit - 1);
      if n < limit - 1 || Stops(b, sought, n) then n else limit
  }

  // The walk over a buffer of any content stays in it, goes only forward and ends, if and only if it visits no record
  // whose length does not lead forward.
  lemma WalkEndsWellIff(b: Buffer)
    requires Located(b)
    ensures EndsWell(b, None) <==> forall k: nat :: At(b, k) != NULL ==> ForwardAt(b, k)
  {
    hide At, ForwardAt, EndsWell;
    EndsWellIff(b, None);
    forall k: nat
      ensures Passes(b, None, k) <==> At(b, k) != NULL
    {
      if At(b, k) != NULL {
        forall j: nat | j <= k
          ensures !Stops(b, None, j)
        {
          if At(b, j) == NULL {
            OverIsOver(b, j, k);
          }
        }
      } else {
        assert Stops(b, None, k);
      }
    }
  }

  lemma StartsAtBase(b: Buffer)
    requires Located(b)
    ensures At(b, 0) == if b.total >= HEADER_SIZE then b.base else NULL
  {
  }

  lemma NextIsAt(b: Buffer, k: nat)
    requires Located(b) && At(b, k) != NULL
    ensures At(b, k + 1) == Next(b, At(b, k))
  {
  }

  lemma CycleSteps(b: Buffer)
    requires b.base + 24 < WORD_LIMIT && b.base != NULL && b.total == 24
    requires b.base in b.mem && b.mem[b.base].low == 16
    requires b.base + 16 in b.mem && b.mem[b.base + 16].low == WORD_LIMIT - 16
    ensures Next(b, b.base) == b.base + 16 && Next(b, b.base + 16) == b.base
  {
    assert Align(16) == 16 && Align(WORD_LIMIT - 16) == WORD_LIMIT - 16 && Align(8) == 8;
    hide Align;
  }

  // Without a record that leads to itself the walk can still go round for ever: a second length of 2^32 - 16 leads
  // back to the first record.
  lemma {:induction false} WalkCanCycle(b: Buffer, k: nat)
    requires Located(b) && b.base != NULL && b.total == 24
    requires b.base in b.mem && b.mem[b.base].low == 16
    requires b.base + 16 in b.mem && b.mem[b.base + 16].low == WORD_LIMIT - 16
    ensures At(b, 2 * k) == b.base && At(b, 2 * k + 1) == b.base + 16
    ensures Next(b, b.base) != b.base && Next(b, b.base + 16) != b.base + 16
  {
    CycleSteps(b);
    if k == 0 {
      StartsAtBase(b);
    } else {
      WalkCanCycle(b, k - 1);
      assert 2 * (k - 1) + 1 == 2 * k - 1;
      NextIsAt(b, 2 * k - 1);
    }
    NextIsAt(b, 2 * k);
  }

  // ---- Records that fill a buffer -----------------------------------------

  // How far behind the base record i starts.
  ghost function Offset(recs: seq<Cell>, i: nat): nat
    requires i <= |recs|
  {
    if i == 0 then 0 else Offset(recs, i - 1) + Align(recs[i - 1].low)
  }

  // The header of record i lies in the buffer, and its length leads forward.
  ghost predicate RecordIsAt(b: Buffer, recs: seq<Cell>, i: nat)
    requires i < |recs|
  {
    var p := b.base + Offset(recs, i);
    && b.base != NULL && p + HEADER_SIZE <= b.base + b.total < WORD_LIMIT
    && p in b.mem && b.mem[p] == recs[i] && LeadsForward(b, p)
  }

  // The records lie one behind the other, each in its aligned space, and no further header fits behind them.
  ghost predicate Fills(b: Buffer, recs: seq<Cell>) {
    && (forall i :: 0 <= i < |recs| ==> RecordIsAt(b, recs, i))
    && (b.base == NULL || b.total < Offset(recs, |recs|) + HEADER_SIZE)
  }

  // The address of record i, NULL behind the last.
  ghost function RecordOrEnd(b: Buffer, recs: seq<Cell>, i: nat): nat
    requires i <= |recs|
  {
    if i < |recs| then b.base + Offset(recs, i) else NULL
  }

  lemma FirstIsFirstRecord(b: Buffer, recs: seq<Cell>)
    requires Fills(b, recs)
    ensures First(b) == RecordOrEnd(b, recs, 0)
  {
    if recs != [] {
      assert RecordIsAt(b, recs, 0);
    }
  }

  // From each record the macro leads to the next one, and from the last one nowhere.
  lemma NextIsNextRecord(b: Buffer, recs: seq<Cell>, i: nat)
    requires Fills(b, recs) && i < |recs|
    ensures RecordIsAt(b, recs, i)
    ensures Next(b, b.base + Offset(recs, i)) == RecordOrEnd(b, recs, i + 1)
  {
    assert Align(HEADER_SIZE) == HEADER_SIZE;
    hide Align;
    assert RecordIsAt(b, recs, i);
    assert Offset(recs, i + 1) == Offset(recs, i) + Align(recs[i].low);
    hide Offset;
    if i + 1 < |recs| {
      assert RecordIsAt(b, recs, i + 1);
    }
  }

  // The walk visits every record once, in order, and then ends.
  lemma {:induction false} WalkVisitsEveryRecord(b: Buffer, recs: seq<Cell>, k: nat)
    requires Located(b) && Fills(b, recs)
    ensures At(b, k) == if k < |recs| then b.base + Offset(recs, k) else NULL
  {
    hide Next, Offset, First, Fills;
    if k == 0 {
      FirstIsFirstRecord(b, recs);
    } else {
      WalkVisitsEveryRecord(b, recs, k - 1);
      if k <= |recs| {
        NextIsNextRecord(b, recs, k - 1);
      }
    }
  }

  // The first n records the walk visits
  ghost function VisitedRecords(b: Buffer, n: nat): (recs: seq<Cell>)
    requires Located(b) && forall i: nat :: i < n ==> ForwardAt(b, i)
    ensures |recs| == n
  {
    seq(n, i requires 0 <= i < n => assert ForwardAt(b, i); b.mem[At(b, i)])
  }

  lemma StepFrom(b: Buffer, k: nat)
    requires Located(b) && ForwardAt(b, k) && InBounds(b, At(b, k))
    ensures var next := At(b, k) + Align(b.mem[At(b, k)].low);
            At(b, k + 1) == if next + HEADER_SIZE > b.base + b.total then NULL else next
  {
  }

  lemma {:induction false} VisitedOffsets(b: Buffer, n: nat, i: nat)
    requires Located(b) && (forall j: nat :: j < n ==> ForwardAt(b, j)) && i <= n
    ensures var recs := VisitedRecords(b, n);
            if i < n then At(b, i) == b.base + Offset(recs, i) && RecordIsAt(b, recs, i)
            else At(b, i) == NULL ==> b.base == NULL || b.total < Offset(recs, i) + HEADER_SIZE
  {
    hide At, LeadsForward, Align;
    var recs := VisitedRecords(b, n);
    StartsAtBase(b);
    if i > 0 {
      VisitedOffsets(b, n, i - 1);
      StepFrom(b, i - 1);
      assert Offset(recs, i) == Offset(recs, i - 1) + Align(recs[i - 1].low);
    }
    if i < n {
      assert ForwardAt(b, i);
      ForwardIsGood(b, i);
      GoodStepsAdvance(b, i);
      assert recs[i] == b.mem[At(b, i)];
    }
  }

  // Records fill the buffer if and only if the walk over it goes only forward, stays in it and ends.
  lemma FilledIff(b: Buffer)
    requires Located(b)
    ensures (exists recs :: Fills(b, recs)) <==> EndsWell(b, None)
  {
    hide Fills, At, ForwardAt, EndsWell;
    WalkEndsWellIff(b);
    if recs :| Fills(b, recs) {
      forall k: nat | At(b, k) != NULL
        ensures ForwardAt(b, k)
      {
        RecordLeadsForward(b, recs, k);
      }
    }
    if EndsWell(b, None) {
      var n := WalkLength(b);
      forall k: nat | k < n
        ensures ForwardAt(b, k)
      {
        RunningIsSome(b, None, k);
      }
      VisitedFill(b, n);
    }
  }

  lemma RecordLeadsForward(b: Buffer, recs: seq<Cell>, k: nat)
    requires Located(b) && Fills(b, recs) && At(b, k) != NULL
    ensures ForwardAt(b, k)
  {
    hide At, LeadsForward, Offset;
    WalkVisitsEveryRecord(b, recs, k);
    assert RecordIsAt(b, recs, k);
  }

  // The number of records a walk visits that ends well
  ghost function WalkLength(b: Buffer): (n: nat)
    requires Located(b) && EndsWell(b, None)
    ensures At(b, n) == NULL && forall k: nat :: k < n ==> !Stops(b, None, k)
  {
    var end: nat :| Stops(b, None, end) && forall k: nat :: k < end ==> GoodStep(b, k);
    FirstStop(b, None, end)
  }

  lemma VisitedFill(b: Buffer, n: nat)
    requires Located(b) && At(b, n) == NULL && forall j: nat :: j < n ==> ForwardAt(b, j)
    ensures Fills(b, VisitedRecords(b, n))
  {
    hide At, ForwardAt, Offset, RecordIsAt, VisitedRecords;
    forall i | 0 <= i < n
      ensures RecordIsAt(b, VisitedRecords(b, n), i)
    {
      VisitedOffsets(b, n, i);
    }
    VisitedOffsets(b, n, n);
  }

  // ---- Storing a time stamp -----------------------------------------------

  // eth_mac_time_t
  datatype Stamp = Stamp(seconds: Word, nanoseconds: Word)

  // The test that there is room: a 32-bit difference, which wraps for a length below that of a header.
  predicate PassesForRoom(c: Cell) {
    (c.low - HEADER_SIZE) % WORD_LIMIT >= TIMESPEC_SIZE
  }

  lemma PassesForRoomIff(c: Cell)
    ensures PassesForRoom(c) <==> c.low >= HEADER_SIZE + TIMESPEC_SIZE || c.low < HEADER_SIZE
  {
  }

  // Both fields of the timespec behind the header at p are written, and nothing else is.
  ghost predicate StampWritten(before: Memory, after: Memory, p: Pointer, ts: Stamp) {
    var first, second := Plus(p, 8), Plus(p, 16);
    && after.Keys == before.Keys && first in before && second in before
    && after[first] == Cell(ts.seconds, 0)
    && after[second] == Cell(ts.nanoseconds, before[second].high)
    && forall a :: a in before && a != first && a != second ==> after[a] == before[a]
  }

  // The byte at a belongs to the timespec behind the header at p.
  predicate InStamp(p: Pointer, a: nat) {
    p + HEADER_SIZE <= a < p + HEADER_SIZE + TIMESPEC_SIZE
  }

  // All of them lie in the record at p, and in the buffer.
  ghost predicate StampInside(b: Buffer, p: Pointer)
    requires p in b.mem
  {
    forall a: nat :: InStamp(p, a) ==> a < p + b.mem[p].low && a < b.base + b.total
  }

  // A stamp that is stored stays inside its record and the buffer if and only if the length has room for it and the
  // buffer has as well; of the second the test knows nothing.
  lemma StampInsideIff(b: Buffer, p: Pointer)
    requires p in b.mem
    ensures StampInside(b, p) <==> b.mem[p].low >= 24 && p + 24 <= b.base + b.total
  {
    if StampInside(b, p) {
      assert InStamp(p, p + 23);
    }
  }

  // Each record ends where the next begins or before.
  lemma {:induction false} OffsetsGrow(recs: seq<Cell>, i: nat, j: nat)
    requires i < j <= |recs|
    ensures Offset(recs, i) + Align(recs[i].low) <= Offset(recs, j)
    ensures j == i + 1 ==> Offset(recs, i) + Align(recs[i].low) == Offset(recs, j)
    decreases j
  {
    hide Align;
    if i + 1 < j {
      OffsetsGrow(recs, i, j - 1);
    }
  }

  // The aligned space of a record
  lemma SpaceOf(b: Buffer, recs: seq<Cell>, i: nat)
    requires Fills(b, recs) && i < |recs|
    ensures recs[i].low <= Align(recs[i].low)
    ensures if recs[i].low <= HEADER_SIZE then Align(recs[i].low) == HEADER_SIZE else Align(recs[i].low) >= 2 * HEADER_SIZE
    ensures b.base + Offset(recs, i) + Align(recs[i].low) <= WORD_LIMIT
  {
    hide Offset;
    assert RecordIsAt(b, recs, i);
  }

  // How far record j lies from record i
  lemma Distance(b: Buffer, recs: seq<Cell>, i: nat, j: nat)
    requires Fills(b, recs) && i < |recs| && j < |recs|
    ensures var d := Offset(recs, j) - Offset(recs, i);
            && (j < i ==> d <= -8)
            && (j == i + 1 ==> d == Align(recs[i].low))
            && (j > i + 1 ==> d >= Align(recs[i].low) + if recs[i + 1].low <= HEADER_SIZE then 8 else 16)
            && (j == i + 2 && recs[i + 1].low <= HEADER_SIZE ==> d == Align(recs[i].low) + 8)
            && (j > i + 2 ==> d >= Align(recs[i].low) + 16)
  {
    hide Align, Fills, Offset;
    if j < i {
      OffsetsGrow(recs, j, i);
      SpaceOf(b, recs, j);
    } else if i < j {
      OffsetsGrow(recs, i, i + 1);
      if i + 1 < j {
        OffsetsGrow(recs, i + 1, i + 2);
        SpaceOf(b, recs, i + 1);
        if i + 2 < j {
          OffsetsGrow(recs, i + 2, j);
          SpaceOf(b, recs, i + 2);
        }
      }
    }
  }

  // What is read as the header of record j after a stamp was stored behind that of record i.
  lemma HeaderAfterStamp(b: Buffer, recs: seq<Cell>, i: nat, j: nat, p: Pointer, ts: Stamp, after: Memory)
    requires Located(b) && Fills(b, recs) && i < |recs| && j < |recs| && p == b.base + Offset(recs, i)
    requires PassesForRoom(recs[i]) && StampWritten(b.mem, after, p, ts)
    ensures b.base + Offset(recs, j) in after
    ensures after[b.base + Offset(recs, j)]
            == if recs[i].low >= HEADER_SIZE then recs[j]
               else if j == i + 1 then Cell(ts.seconds, 0)
               else if j == i + 2 && recs[i + 1].low <= HEADER_SIZE then Cell(ts.nanoseconds, recs[j].high)
               else recs[j]
  {
    assert RecordIsAt(b, recs, i) && RecordIsAt(b, recs, j);
    hide Align, Offset, LeadsForward, Fills, Located;
    PassesForRoomIff(recs[i]);
    SpaceOf(b, recs, i);
    Distance(b, recs, i, j);
  }

  // The same record in another memory
  lemma SameHeader(b: Buffer, mem: Memory, recs: seq<Cell>, i: nat)
    requires i < |recs| && RecordIsAt(b, recs, i) && b.base + Offset(recs, i) in mem
    ensures RecordIsAt(b.(mem := mem), recs, i) <==> mem[b.base + Offset(recs, i)] == recs[i]
  {
    hide Offset, Align;
  }

  // The walk over the records stays as it was if and only if the record has room for the stamp, or is the last one, or
  // the stamp happens to repeat the headers it overwrites.
  lemma StampKeepsRecordsIff(b: Buffer, recs: seq<Cell>, i: nat, p: Pointer, ts: Stamp, after: Memory)
    requires Located(b) && Fills(b, recs) && i < |recs| && p == b.base + Offset(recs, i)
    requires PassesForRoom(recs[i]) && StampWritten(b.mem, after, p, ts)
    ensures Fills(b.(mem := after), recs)
            <==> || recs[i].low >= HEADER_SIZE + TIMESPEC_SIZE
                 || i + 1 == |recs|
                 || (&& recs[i + 1] == Cell(ts.seconds, 0)
                     && (recs[i + 1].low <= HEADER_SIZE && i + 2 < |recs| ==> recs[i + 2].low == ts.nanoseconds))
  {
    hide Offset, StampWritten, Located, PassesForRoom, RecordIsAt;
    PassesForRoomIff(recs[i]);
    var c := b.(mem := after);
    forall j | 0 <= j < |recs|
      ensures RecordIsAt(c, recs, j)
              <==> || recs[i].low >= HEADER_SIZE
                   || !(i < j <= i + 2)
                   || (j == i + 1 && recs[j] == Cell(ts.seconds, 0))
                   || (j == i + 2 && (recs[i + 1].low <= HEADER_SIZE ==> recs[j].low == ts.nanoseconds))
    {
      HeaderAfterStamp(b, recs, i, j, p, ts, after);
      SameHeader(b, after, recs, j);
    }
    if i + 1 < |recs| {
      assert RecordIsAt(c, recs, i + 1) <==> recs[i].low >= HEADER_SIZE || recs[i + 1] == Cell(ts.seconds, 0);
    }
    if i + 2 < |recs| {
      assert RecordIsAt(c, recs, i + 2)
             <==> recs[i].low >= HEADER_SIZE || (recs[i + 1].low <= HEADER_SIZE ==> recs[i + 2].low == ts.nanoseconds);
    }
  }

  // A record marked as invalid keeps its length, so the walk stays as it was.
  lemma MarkKeepsRecords(b: Buffer, recs: seq<Cell>, i: nat, p: Pointer)
    requires Fills(b, recs) && i < |recs| && p == b.base + Offset(recs, i)
    ensures var marked := recs[i].(high := TYPE_INVALID);
            Fills(b.(mem := b.mem[p := marked]), recs[i := marked])
  {
    hide Align, Offset;
    var marked := recs[i := recs[i].(high := TYPE_INVALID)];
    var c := b.(mem := b.mem[p := marked[i]]);
    SameOffsets(recs, marked, |recs|);
    forall j | 0 <= j < |recs|
      ensures RecordIsAt(c, marked, j)
    {
      assert RecordIsAt(b, recs, j);
      SameOffsets(recs, marked, j);
      hide Fills;
      if i != j {
        Distance(b, recs, i, j);
        SpaceOf(b, recs, i);
      }
    }
  }

  lemma {:induction false} SameOffsets(recs: seq<Cell>, others: seq<Cell>, i: nat)
    requires |others| == |recs| && i <= |recs| && forall j :: 0 <= j < i ==> recs[j].low == others[j].low
    ensures Offset(recs, i) == Offset(others, i)
  {
    if i > 0 {
      SameOffsets(recs, others, i - 1);
    }
  }

  class ExtendedBuffer {
    const base: Pointer   // info_recs_buff
    const total: Word     // info_recs_len
    var mem: Memory

    ghost function View(): Buffer
      reads this
    {
      Buffer(base, total, mem)
    }

    constructor (b: Buffer)
      ensures View() == b
    {
      base, total, mem := b.base, b.total, b.mem;
    }

    // The while loop of pop_rx_queue and l2tap_write; it is entered with any buffer on which it ends.
    method FindTimeStampRecord() returns (found: Pointer, ghost index: nat)
      requires Located(View()) && exists n: nat :: Stops(View(), Some(TYPE_TIME_STAMP), n)
      ensures found == At(View(), index) && (found != NULL ==> mem[found].high == 1)
      ensures Stops(View(), Some(TYPE_TIME_STAMP), index)
      ensures forall i: nat :: i < index ==> !Stops(View(), Some(TYPE_TIME_STAMP), i)
    {
      ghost var b := View();
      ghost var sought := Some(TYPE_TIME_STAMP);
      hide Next, First;
      ghost var end: nat :| Stops(b, sought, end);
      found := First(Buffer(base, total, mem));
      index := 0;
      while found != NULL
        invariant index <= end && found == At(b, index)
        invariant forall i: nat :: i < index ==> !Stops(b, sought, i)
        decreases end - index
      {
        if mem[found].high == TYPE_TIME_STAMP {
          break;
        }
        assert !Stops(b, sought, index);
        found := Next(Buffer(base, total, mem), found);
        index := index + 1;
      }
    }

    // Stores the time stamp behind the header of the first record made for it, or marks that record invalid.
    method StoreTimeStamp(ts: Stamp) returns (ghost index: nat)
      requires Located(View()) && exists n: nat :: Stops(View(), Some(TYPE_TIME_STAMP), n)
      modifies this
      ensures Stops(old(View()), Some(TYPE_TIME_STAMP), index)
      ensures forall i: nat :: i < index ==> !Stops(old(View()), Some(TYPE_TIME_STAMP), i)
      ensures var p := At(old(View()), index);
              if p == NULL then mem == old(mem)
              else if old(mem)[p].low >= HEADER_SIZE + TIMESPEC_SIZE || old(mem)[p].low < HEADER_SIZE
              then StampWritten(old(mem), mem, p, ts)
              else mem == old(mem)[p := old(mem)[p].(high := 0xFFFF_FFFF)]
    {
      hide At, Stops, PassesForRoom;
      var p: Pointer;
      p, index := FindTimeStampRecord();
      if p != NULL {
        PassesForRoomIff(mem[p]);
        if PassesForRoom(mem[p]) {
          var first, second := Plus(p, 8), Plus(p, 16);
          mem := mem[first := Cell(ts.seconds, 0)];
          mem := mem[second := mem[second].(low := ts.nanoseconds)];
        } else {
          mem := mem[p := mem[p].(high := TYPE_INVALID)];
        }
      }
    }
  }
}
