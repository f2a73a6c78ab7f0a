/**
  Readings of the NAU7802 load-cell converter (nau7802.c): the average of several samples, its timeout, and the signed
  24-bit registers.
*/
module LoadCell {

  newtype Int32 = x: int | -0x8000_0000 <= x < 0x8000_0000
  newtype Uint8 = x: int | 0 <= x < 0x100

  const WORD := 0x1_0000_0000
  const TICK_PERIOD_MS := 10   // portTICK_PERIOD_MS at 100 ticks a second

  // ---- Signed 24-bit numbers ----------------------------------------------

  const MIN24 := -0x80_0000
  const MAX24 := 0x7F_FFFF

  // The three bytes sent for a value: its bits 23 to 0, highest first. Division rounds down, as shifting right does.
  function Bytes24(value: Int32): (r: seq<Uint8>)
    ensures |r| == 3
  {
    var v := value as int;
    [(v / 0x1_0000 % 0x100) as Uint8, (v / 0x100 % 0x100) as Uint8, (v % 0x100) as Uint8]
  }

  // The value of three bytes read: bit 23 is copied into bits 24 to 31.
  function Value24(b: seq<Uint8>): (r: Int32)
    requires |b| == 3
    ensures MIN24 <= r as int <= MAX24
  {
    var raw := b[0] as int * 0x1_0000 + b[1] as int * 0x100 + b[2] as int;
    if raw >= 0x80_0000 then (raw - 0x100_0000) as Int32 else raw as Int32
  }

  // The first register is the most significant one: the number is that of its 24 bits in two's complement.
  lemma ValueIs(b: seq<Uint8>)
    requires |b| == 3
    ensures Value24(b) as int == 65536 * (if b[0] < 128 then b[0] as int else b[0] as int - 256) + 256 * b[1] as int + b[2] as int
  {
  }

  // The first byte sent is the most significant one.
  lemma BytesAre(value: Int32)
    requires MIN24 <= value as int <= MAX24
    ensures var b := Bytes24(value);
            value as int == 65536 * (if b[0] < 128 then b[0] as int else b[0] as int - 256) + 256 * b[1] as int + b[2] as int
  {
    ReadBack(value);
    ValueIs(Bytes24(value));
  }

  lemma BytesOf(v: int)
    ensures v / 0x1_0000 % 0x100 * 0x1_0000 + v / 0x100 % 0x100 * 0x100 + v % 0x100 == v % 0x100_0000
  {
    var low, mid, high := v % 0x100, v / 0x100 % 0x100, v / 0x1_0000 % 0x100;
    assert v == v / 0x100 * 0x100 + low;
    assert v / 0x100 == v / 0x1_0000 * 0x100 + mid;
    assert v / 0x1_0000 == v / 0x100_0000 * 0x100 + high;
  }

  // Writing a value and reading it back gives the number of 24 bits that is equal to it modulo 2^24: the value itself
  // exactly when it fits.
  lemma ReadBack(value: Int32)
    ensures (Value24(Bytes24(value)) as int - value as int) % 0x100_0000 == 0
    ensures Value24(Bytes24(value)) == value <==> MIN24 <= value as int <= MAX24
  {
    hide Value24, Bytes24;
    ReadBackIsModulo(value);
    Representative(value as int);
  }

  // The 24-bit number that is equal to a value modulo 2^24
  function Signed24(v: int): (r: int)
    ensures MIN24 <= r <= MAX24
  {
    var raw := v % 0x100_0000;
    if raw >= 0x80_0000 then raw - 0x100_0000 else raw
  }

  lemma ReadBackIsModulo(value: Int32)
    ensures Value24(Bytes24(value)) as int == Signed24(value as int)
  {
    BytesOf(value as int);
  }

  lemma Representative(v: int)
    ensures (Signed24(v) - v) % 0x100_0000 == 0
    ensures Signed24(v) == v <==> MIN24 <= v <= MAX24
  {
    var turns := v / 0x100_0000;
    assert v == turns * 0x100_0000 + v % 0x100_0000;
  }

  // Writing back a value that was read restores its bytes.
  lemma WriteBack(b: seq<Uint8>)
    requires |b| == 3
    ensures Bytes24(Value24(b)) == b
  {
    var raw := b[0] as int * 0x1_0000 + b[1] as int * 0x100 + b[2] as int;
    Digits(raw, b[0] as int, b[1] as int, b[2] as int);
    if raw >= 0x80_0000 {
      Digits(raw - 0x100_0000, b[0] as int - 0x100, b[1] as int, b[2] as int);
      assert (b[0] as int - 0x100) % 0x100 == b[0] as int;
    }
  }

  lemma Digits(v: int, high: int, mid: int, low: int)
    requires 0 <= mid < 0x100 && 0 <= low < 0x100 && v == high * 0x1_0000 + mid * 0x100 + low
    ensures v / 0x1_0000 == high && v / 0x100 % 0x100 == mid && v % 0x100 == low
  {
    assert v / 0x100 == high * 0x100 + mid;
  }

  // ---- The average --------------------------------------------------------

  // C's division of an int32_t by a positive number, toward zero
  function Truncated(total: int, n: int): int
    requires n > 0
  {
    if total >= 0 then total / n else -(-total / n)
  }

  // One turn of the sampling loop: the reading, when one is available, and the tick count after it.
  datatype Poll = Poll(reading: seq<Int32>, tick: nat)

  // The converter gives 24-bit numbers; a failed transfer gives 0.
  ghost predicate FromConverter(p: Poll) {
    |p.reading| <= 1 && forall v :: v in p.reading ==> MIN24 <= v as int <= MAX24
  }

  // Tick counts are taken modulo 2^32, and so are the milliseconds.
  function Milliseconds(tick: nat): nat { tick % WORD * TICK_PERIOD_MS % WORD }

  function Elapsed(start: nat, tick: nat): nat { (Milliseconds(tick) - Milliseconds(start)) % WORD }

  // The elapsed time is right across every wrap of the counters, exactly while it is below 2^32 milliseconds.
  lemma ElapsedIsRightIff(start: nat, tick: nat)
    requires start <= tick
    ensures Elapsed(start, tick) == (tick - start) * 10 % WORD
    ensures Elapsed(start, tick) == (tick - start) * 10 <==> (tick - start) * 10 < WORD
  {
    hide Milliseconds;
    WrapTimes(start);
    WrapTimes(tick);
    WrapDifference(tick * TICK_PERIOD_MS, start * TICK_PERIOD_MS);
  }

  lemma WrapDifference(a: int, b: int)
    ensures (a % WORD - b % WORD) % WORD == (a - b) % WORD
  {
    var d := a / WORD - b / WORD;
    assert a - b == a % WORD - b % WORD + d * WORD;
  }

  lemma WrapTimes(t: nat)
    ensures Milliseconds(t) == t * TICK_PERIOD_MS % WORD
  {
    WrapIgnores(t % WORD * TICK_PERIOD_MS, t / WORD * TICK_PERIOD_MS);
  }

  // Whole turns of a counter do not show.
  lemma WrapIgnores(a: nat, turns: nat)
    ensures (a + turns * WORD) % WORD == a % WORD
  {
  }

  function Sum(samples: seq<Int32>): int {
    if samples == [] then 0 else Sum(samples[..|samples| - 1]) + samples[|samples| - 1] as int
  }

  ghost predicate AllBetween(samples: seq<Int32>, low: int, high: int) {
    forall v :: v in samples ==> low <= v as int <= high
  }

  // n samples of 24 bits add up to less than 32 bits while n is below 256, and lie between n times their bounds.
  lemma {:induction false} SumIsBetween(samples: seq<Int32>, low: int, high: int)
    requires AllBetween(samples, low, high)
    ensures |samples| * low <= Sum(samples) <= |samples| * high
  {
    if samples != [] {
      var before := samples[..|samples| - 1];
      assert forall v :: v in before ==> v in samples;
      SumIsBetween(before, low, high);
      assert samples[|samples| - 1] in samples;
      assert |samples| * low == |before| * low + low && |samples| * high == |before| * high + high;
    }
  }

  // The truncated mean lies between the least and the greatest sample, and is the mean rounded toward zero.
  lemma MeanIsBetween(samples: seq<Int32>, low: int, high: int)
    requires samples != [] && AllBetween(samples, low, high)
    ensures var mean := Truncated(Sum(samples), |samples|);
            && low <= mean <= high
            && -|samples| < mean * |samples| - Sum(samples) < |samples|
            && (if Sum(samples) >= 0 then 0 <= mean * |samples| <= Sum(samples)
                else Sum(samples) <= mean * |samples| <= 0)
  {
    SumIsBetween(samples, low, high);
    TruncatedIsBetween(Sum(samples), |samples|, low, high);
  }

  lemma TruncatedIsBetween(total: int, n: int, low: int, high: int)
    requires n > 0 && n * low <= total <= n * high
    ensures low <= Truncated(total, n) <= high
    ensures if total >= 0 then 0 <= Truncated(total, n) * n <= total < Truncated(total, n) * n + n
            else Truncated(total, n) * n - n < total <= Truncated(total, n) * n <= 0
  {
    if total >= 0 {
      FloorIsBetween(total, n, low, high);
    } else {
      FloorIsBetween(-total, n, -high, -low);
      assert Truncated(total, n) * n == -(-total / n * n);
    }
  }

  lemma FloorIsBetween(total: nat, n: int, low: int, high: int)
    requires n > 0 && n * low <= total <= n * high
    ensures low <= total / n <= high
    ensures 0 <= total / n * n <= total < total / n * n + n
  {
    var q := total / n;
    FloorTimes(total, n);
    assert (q + 1) * n == q * n + n && (q - 1) * n == q * n - n;
    Cancel(low, q + 1, n);
    Cancel(q - 1, high, n);
  }

  lemma FloorTimes(total: nat, n: int)
    requires n > 0
    ensures 0 <= total / n * n <= total < total / n * n + n
  {
  }

  lemma Cancel(a: int, b: int, n: int)
    requires n > 0
    ensures a * n < b * n ==> a < b
  {
    if a >= b {
      assert (a - b) * n >= 0;
    }
  }

  // The samples of the loop, got being those it has already, and whether it ends with these polls: it does when it
  // has all samples, or after a poll whose time is over the limit (0 is no limit).
  function Collect(polls: seq<Poll>, got: seq<Int32>, count: nat, timeout: nat, start: nat): (seq<Int32>, bool)
    decreases |polls|
  {
    if |got| >= count then (got, true)
    else if polls == [] then (got, false)
    else if 0 < timeout < Elapsed(start, polls[0].tick) then (got + polls[0].reading, true)
    else Collect(polls[1..], got + polls[0].reading, count, timeout, start)
  }

  function Readings(polls: seq<Poll>): seq<Int32> {
    if polls == [] then [] else Readings(polls[..|polls| - 1]) + polls[|polls| - 1].reading
  }

  // nau7802_get_average. The sum never leaves 32 bits; the result is the mean of the samples, rounded toward zero,
  // and lies between the least and the greatest of them; without any sample it is 0.
  method GetAverage(polls: seq<Poll>, count: Uint8, timeout: nat, start: nat) returns (done: bool, average: Int32)
    requires forall p :: p in polls ==> FromConverter(p)
    ensures done == Collect(polls, [], count as nat, timeout, start).1
    ensures var samples := Collect(polls, [], count as nat, timeout, start).0;
            && |samples| <= count as nat
            && (done ==> average as int == if samples == [] then 0 else Truncated(Sum(samples), |samples|))
            && (done && samples != [] ==>
                  forall low, high :: AllBetween(samples, low, high) ==> low <= average as int <= high)
  {
    hide Sum, Collect, Truncated, Elapsed;
    var total: Int32 := 0;
    var acquired: Uint8 := 0;
    ghost var samples: seq<Int32> := [];
    var i := 0;
    var timedOut := false;
    CollectStep(polls, 0, [], count as nat, timeout, start);
    while acquired < count && i < |polls| && !timedOut
      invariant 0 <= i <= |polls|
      invariant acquired <= count && |samples| == acquired as nat
      invariant AllBetween(samples, MIN24, MAX24) && total as int == Sum(samples)
      invariant Collect(polls, [], count as nat, timeout, start)
                == if timedOut then (samples, true) else Collect(polls[i..], samples, count as nat, timeout, start)
      decreases |polls| - i
    {
      CollectStep(polls, i, samples, count as nat, timeout, start);
      assert FromConverter(polls[i]);
      assert polls[i].reading == [] ==> samples + polls[i].reading == samples;
      if |polls[i].reading| > 0 {
        var reading := polls[i].reading[0];
        assert polls[i].reading == [reading] && reading in polls[i].reading;
        SumGrows(samples, reading);
        samples := samples + polls[i].reading;
        total := total + reading;
        acquired := acquired + 1;
      }
      var elapsed := Elapsed(start, polls[i].tick);
      if timeout > 0 && elapsed > timeout {
        timedOut := true;
      }
      i := i + 1;
    }
    CollectStep(polls, i, samples, count as nat, timeout, start);
    done := acquired >= count || timedOut;
    if acquired == 0 {
      return done, 0;
    }
    TruncatedMean(samples);
    average := Truncated(total as int, acquired as int) as Int32;
  }

  lemma TruncatedMean(samples: seq<Int32>)
    requires samples != [] && AllBetween(samples, MIN24, MAX24)
    ensures MIN24 <= Truncated(Sum(samples), |samples|) <= MAX24
    ensures forall low, high :: AllBetween(samples, low, high) ==> low <= Truncated(Sum(samples), |samples|) <= high
  {
    MeanIsBetween(samples, MIN24, MAX24);
    forall low: int, high: int | AllBetween(samples, low, high)
      ensures low <= Truncated(Sum(samples), |samples|) <= high
    {
      MeanIsBetween(samples, low, high);
    }
  }

  // One sample more still fits, up to 255 of them.
  lemma SumGrows(samples: seq<Int32>, v: Int32)
    requires AllBetween(samples, MIN24, MAX24) && MIN24 <= v as int <= MAX24 && |samples| < 255
    ensures Sum(samples + [v]) == Sum(samples) + v as int
    ensures -0x8000_0000 <= Sum(samples + [v]) < 0x8000_0000
    ensures AllBetween(samples + [v], MIN24, MAX24)
  {
    assert (samples + [v])[..|samples|] == samples;
    SumIsBetween(samples, MIN24, MAX24);
  }

  // One turn of the loop, or its end
  lemma CollectStep(polls: seq<Poll>, i: nat, got: seq<Int32>, count: nat, timeout: nat, start: nat)
    requires i <= |polls|
    ensures Sum([]) == 0
    ensures Collect(polls[i..], got, count, timeout, start)
            == if |got| >= count then (got, true)
               else if i == |polls| then (got, false)
               else if 0 < timeout < Elapsed(start, polls[i].tick) then (got + polls[i].reading, true)
               else Collect(polls[i + 1..], got + polls[i].reading, count, timeout, start)
    ensures i == 0 ==> polls[i..] == polls
  {
    hide Elapsed;
    if i < |polls| {
      assert polls[i..][0] == polls[i] && polls[i..][1..] == polls[i + 1..];
    }
  }

  // The loop is over after k polls: they brought all samples or the last of them was late.
  ghost predicate Over(polls: seq<Poll>, k: nat, count: nat, timeout: nat, start: nat)
    requires k <= |polls|
  {
    |Readings(polls[..k])| >= count || (k > 0 && 0 < timeout < Elapsed(start, polls[k - 1].tick))
  }

  // The samples are the readings of the shortest beginning of the polls after which the loop is over.
  lemma CollectTakesShortest(polls: seq<Poll>, k: nat, count: nat, timeout: nat, start: nat)
    requires k <= |polls| && forall j :: 0 <= j < k ==> !Over(polls, j, count, timeout, start)
    ensures Over(polls, k, count, timeout, start) ==>
              Collect(polls, [], count, timeout, start) == (Readings(polls[..k]), true)
    ensures !Over(polls, k, count, timeout, start) && k == |polls| ==> !Collect(polls, [], count, timeout, start).1
  {
    CollectReaches(polls, k, count, timeout, start);
    assert k == |polls| ==> polls[k..] == [];
  }

  // Before it is over, the loop goes on behind the first k polls with their readings.
  lemma {:induction false} CollectReaches(polls: seq<Poll>, k: nat, count: nat, timeout: nat, start: nat)
    requires k <= |polls| && forall j :: 0 <= j < k ==> !Over(polls, j, count, timeout, start)
    ensures Collect(polls, [], count, timeout, start)
            == if k > 0 && 0 < timeout < Elapsed(start, polls[k - 1].tick) then (Readings(polls[..k]), true)
               else Collect(polls[k..], Readings(polls[..k]), count, timeout, start)
  {
    if k == 0 {
      assert polls[0..] == polls && polls[..0] == [];
    } else {
      CollectReaches(polls, k - 1, count, timeout, start);
      assert !Over(polls, k - 1, count, timeout, start);
      assert polls[k - 1..][0] == polls[k - 1] && polls[k - 1..][1..] == polls[k..];
      assert polls[..k][..k - 1] == polls[..k - 1];
    }
  }

  // ---- The converter's registers ------------------------------------------

  class Converter {
    const registers: array<Uint8>

    constructor ()
      ensures fresh(registers) && registers.Length == 0x20
    {
      registers := new Uint8[0x20];
    }

    // nau7802_set_24bit_register; false stands for a failed transfer
    method Set24(reg: nat, value: Int32, ok: bool) returns (r: bool)
      requires reg + 3 <= registers.Length
      modifies registers
      ensures r == ok
      ensures registers[..] == if ok then old(registers[..reg]) + Bytes24(value) + old(registers[reg + 3..])
                               else old(registers[..])
    {
      if !ok {
        return false;
      }
      var v := value as int;
      registers[reg] := (v / 0x1_0000 % 0x100) as Uint8;
      registers[reg + 1] := (v / 0x100 % 0x100) as Uint8;
      registers[reg + 2] := (v % 0x100) as Uint8;
      return true;
    }

    // nau7802_get_24bit_register and nau7802_get_reading; a failed transfer gives 0
    method Get24(reg: nat, ok: bool) returns (value: Int32)
      requires reg + 3 <= registers.Length
      ensures value == if ok then Value24(registers[reg..reg + 3]) else 0
    {
      if !ok {
        return 0;
      }
      var raw := registers[reg] as int * 0x1_0000 + registers[reg + 1] as int * 0x100 + registers[reg + 2] as int;
      if raw >= 0x80_0000 {
        raw := raw - 0x100_0000;
      }
      return raw as Int32;
    }
  }
}
