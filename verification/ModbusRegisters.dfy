/**
  The register map of components/modbus_tcp/src/modbus_register_map.c: three assembly buffers seen as 16-bit
  registers, read most significant byte first (MODBUS Application Protocol Specification V1.1b3, section 4.2).
*/
module ModbusRegisters {

  newtype Byte = b: int | 0 <= b < 256
  type Word = w: int | 0 <= w < 0x1_0000

  const INPUT_REG_END: nat := 15
  const OUTPUT_START: nat := 100
  const OUTPUT_END: nat := 115
  const CONFIG_START: nat := 150
  const CONFIG_END: nat := 154

  // ---- Byte order ---------------------------------------------------------

  // bytes_to_big_endian_uint16
  function ToWord(high: Byte, low: Byte): (w: Word) {
    high as int * 256 + low as int
  }

  // (w >> 8) & 0xFF and w & 0xFF
  function HighByte(w: Word): Byte {
    (w / 256) as Byte
  }

  function LowByte(w: Word): Byte {
    (w % 256) as Byte
  }

  // big_endian_to_little_endian
  function SwapWord(w: Word): (r: Word) {
    (w % 256) * 256 + w / 256
  }

  lemma SwapWordEffect(high: Byte, low: Byte)
    ensures SwapWord(ToWord(high, low)) == ToWord(low, high)
    ensures HighByte(ToWord(high, low)) == high && LowByte(ToWord(high, low)) == low
    ensures HighByte(ToWord(low, high)) == low && LowByte(ToWord(low, high)) == high
  {
  }

  // Both bytes of every register exchanged.
  function SwapPairs(bytes: seq<Byte>): (r: seq<Byte>)
    requires |bytes| % 2 == 0
    ensures |r| == |bytes|
    ensures forall i :: 0 <= i < |bytes| / 2 ==> r[2 * i] == bytes[2 * i + 1] && r[2 * i + 1] == bytes[2 * i]
  {
    seq(|bytes|, k requires 0 <= k < |bytes| => if k % 2 == 0 then bytes[k + 1] else bytes[k - 1])
  }

  lemma SwapPairsInvolution(bytes: seq<Byte>)
    requires |bytes| % 2 == 0
    ensures SwapPairs(SwapPairs(bytes)) == bytes
  {
    var twice := SwapPairs(SwapPairs(bytes));
    forall k | 0 <= k < |bytes|
      ensures twice[k] == bytes[k]
    {
      var i := k / 2;
      assert k == 2 * i || k == 2 * i + 1;
    }
  }

  // ---- What the buffers mean ----------------------------------------------

  // The value of register r of a buffer whose registers are stored least significant byte first.
  function RegisterAt(store: seq<Byte>, r: nat): Word
    requires 2 * r + 1 < |store|
  {
    store[2 * r] as int + 256 * store[2 * r + 1] as int
  }

  // The bytes that answer a read of quantity registers from first on: each value most significant byte first.
  function Answer(store: seq<Byte>, first: nat, quantity: nat): (r: seq<Byte>)
    requires 2 * (first + quantity) <= |store|
    ensures |r| == 2 * quantity
    decreases quantity
  {
    if quantity == 0 then []
    else
      var v := RegisterAt(store, first + quantity - 1);
      Answer(store, first, quantity - 1) + [HighByte(v), LowByte(v)]
  }

  lemma AnswerGrows(store: seq<Byte>, first: nat, quantity: nat)
    requires 2 * (first + quantity + 1) <= |store|
    ensures Answer(store, first, quantity + 1)
            == Answer(store, first, quantity) + [store[2 * (first + quantity) + 1], store[2 * (first + quantity)]]
  {
  }

  // The i-th register of an answer is the i-th register that was asked for.
  lemma {:induction false} AnswerMeaning(store: seq<Byte>, first: nat, quantity: nat, i: nat)
    requires 2 * (first + quantity) <= |store| && i < quantity
    ensures var a := Answer(store, first, quantity);
            a[2 * i] == store[2 * (first + i) + 1] && a[2 * i + 1] == store[2 * (first + i)]
            && ToWord(a[2 * i], a[2 * i + 1]) == RegisterAt(store, first + i)
  {
    AnswerGrows(store, first, quantity - 1);
    if i < quantity - 1 {
      AnswerMeaning(store, first, quantity - 1, i);
    }
  }

  // The buffer after data has been put at register first, byte by byte.
  function Put(store: seq<Byte>, first: nat, data: seq<Byte>): (r: seq<Byte>)
    requires 2 * first + |data| <= |store|
    ensures |r| == |store|
  {
    store[..2 * first] + data + store[2 * first + |data|..]
  }

  lemma AnswerBytes(store: seq<Byte>, first: nat, quantity: nat)
    requires 2 * (first + quantity) <= |store|
    ensures Answer(store, first, quantity) == SwapPairs(store[2 * first..2 * (first + quantity)])
  {
    var a := Answer(store, first, quantity);
    var b := SwapPairs(store[2 * first..2 * (first + quantity)]);
    forall k | 0 <= k < 2 * quantity
      ensures a[k] == b[k]
    {
      var i := k / 2;
      assert k == 2 * i || k == 2 * i + 1;
      AnswerMeaning(store, first, quantity, i);
    }
  }

  // Reading back a written range returns every register with its two bytes exchanged: the write swaps a value
  // that is already in the byte order it is stored in.
  lemma ReadBackIsSwapped(store: seq<Byte>, first: nat, data: seq<Byte>)
    requires |data| % 2 == 0 && 2 * first + |data| <= |store|
    ensures Answer(Put(store, first, data), first, |data| / 2) == SwapPairs(data)
  {
    AnswerBytes(Put(store, first, data), first, |data| / 2);
    assert Put(store, first, data)[2 * first..2 * first + |data|] == data;
  }

  // So a written range reads back unchanged exactly when each register's two bytes are equal.
  lemma ReadBackUnchangedIff(store: seq<Byte>, first: nat, data: seq<Byte>)
    requires |data| % 2 == 0 && 2 * first + |data| <= |store|
    ensures Answer(Put(store, first, data), first, |data| / 2) == data
            <==> forall i :: 0 <= i < |data| / 2 ==> data[2 * i] == data[2 * i + 1]
  {
    hide Answer, Put;
    ReadBackIsSwapped(store, first, data);
    SwapUnchangedIff(data);
  }

  lemma SwapUnchangedIff(data: seq<Byte>)
    requires |data| % 2 == 0
    ensures SwapPairs(data) == data <==> forall i :: 0 <= i < |data| / 2 ==> data[2 * i] == data[2 * i + 1]
  {
    var s := SwapPairs(data);
    if s == data {
      forall i | 0 <= i < |data| / 2
        ensures data[2 * i] == data[2 * i + 1]
      {
        assert s[2 * i] == data[2 * i + 1];
      }
    } else {
      var k :| 0 <= k < |data| && s[k] != data[k];
      var i := k / 2;
      assert k == 2 * i || k == 2 * i + 1;
      assert data[2 * i] != data[2 * i + 1];
    }
  }

  // Writing back what was read, and reading again, restores the original data.
  lemma SecondRoundRestores(store: seq<Byte>, first: nat, data: seq<Byte>)
    requires |data| % 2 == 0 && 2 * first + |data| <= |store|
    ensures var once := Put(store, first, data);
            var read := Answer(once, first, |data| / 2);
            Answer(Put(once, first, read), first, |data| / 2) == data
  {
    ReadBackIsSwapped(store, first, data);
    ReadBackIsSwapped(Put(store, first, data), first, SwapPairs(data));
    SwapPairsInvolution(data);
  }

  // The documented storage order, least significant byte first, is what one swap less would write; with it a
  // written range reads back unchanged.
  lemma DocumentedOrderRoundTrip(store: seq<Byte>, first: nat, data: seq<Byte>)
    requires |data| % 2 == 0 && 2 * first + |data| <= |store|
    ensures Answer(Put(store, first, SwapPairs(data)), first, |data| / 2) == data
  {
    ReadBackIsSwapped(store, first, SwapPairs(data));
    SwapPairsInvolution(data);
  }

  // A write leaves every register outside the written range as it was.
  lemma WriteIsLocal(store: seq<Byte>, first: nat, data: seq<Byte>, r: nat)
    requires |data| % 2 == 0 && 2 * first + |data| <= |store| && 2 * r + 1 < |store|
    requires r < first || first + |data| / 2 <= r
    ensures RegisterAt(Put(store, first, data), r) == RegisterAt(store, r)
  {
    if r < first {
      assert 2 * r + 1 < 2 * first;
    } else {
      assert 2 * r >= 2 * first + |data|;
    }
  }

  // ---- The map as a value -------------------------------------------------

  datatype Registers = Registers(input: seq<Byte>, output: seq<Byte>, config: seq<Byte>, ready: bool)

  ghost predicate WellSized(g: Registers) {
    |g.input| == 32 && |g.output| == 32 && |g.config| == 10
  }

  predicate InputRange(start: Word, quantity: Word) {
    start <= INPUT_REG_END && quantity > 0 && start + quantity <= INPUT_REG_END + 1
  }

  predicate OutputRange(start: Word, quantity: Word) {
    start >= OUTPUT_START && start + quantity <= OUTPUT_END + 1
  }

  predicate ConfigRange(start: Word, quantity: Word) {
    start >= CONFIG_START && start + quantity <= CONFIG_END + 1
  }

  predicate HoldingRange(start: Word, quantity: Word) {
    OutputRange(start, quantity) || ConfigRange(start, quantity)
  }

  // The documented registers: 16 inputs from 0 on, 16 holding registers from 100 on and 5 from 150 on
  predicate IsInput(r: nat) { r < 16 }

  predicate IsHolding(r: nat) { 100 <= r < 116 || 150 <= r < 155 }

  // The checks admit exactly the ranges whose registers all exist.
  lemma RangesIff(start: Word, quantity: Word)
    ensures InputRange(start, quantity) <==> quantity > 0 && forall r: nat :: start <= r < start + quantity ==> IsInput(r)
    ensures quantity > 0 ==>
              (HoldingRange(start, quantity) <==> forall r: nat :: start <= r < start + quantity ==> IsHolding(r))
  {
    if quantity > 0 {
      SomeRangesIff(start, quantity);
    }
  }

  lemma SomeRangesIff(start: Word, quantity: Word)
    requires quantity > 0
    ensures InputRange(start, quantity) <==> forall r: nat :: start <= r < start + quantity ==> IsInput(r)
    ensures HoldingRange(start, quantity) <==> forall r: nat :: start <= r < start + quantity ==> IsHolding(r)
  {
    var last: nat := start + quantity - 1;
    if forall r: nat :: start <= r < start + quantity ==> IsInput(r) {
      assert IsInput(last);
    }
    if forall r: nat :: start <= r < start + quantity ==> IsHolding(r) {
      assert IsHolding(start) && IsHolding(last);
      assert start < 116 && last > 115 ==> IsHolding(116);
    }
  }

  ghost function ReadInputBytes(g: Registers, start: Word, quantity: Word): (r: seq<Byte>)
    requires WellSized(g) && InputRange(start, quantity)
    ensures |r| == 2 * quantity
  {
    Answer(g.input, start, quantity)
  }

  ghost function ReadHoldingBytes(g: Registers, start: Word, quantity: Word): (r: seq<Byte>)
    requires WellSized(g) && HoldingRange(start, quantity)
    ensures |r| == 2 * quantity
  {
    if OutputRange(start, quantity) then Answer(g.output, start - OUTPUT_START, quantity)
    else Answer(g.config, start - CONFIG_START, quantity)
  }

  ghost function WriteHolding(g: Registers, start: Word, data: seq<Byte>): (r: Registers)
    requires WellSized(g) && |data| % 2 == 0 && |data| / 2 < 0x1_0000 && HoldingRange(start, |data| / 2)
    ensures WellSized(r)
  {
    if OutputRange(start, |data| / 2) then g.(output := Put(g.output, start - OUTPUT_START, data))
    else g.(config := Put(g.config, start - CONFIG_START, data))
  }

  // The value of the holding register at an address, whichever assembly it is in
  ghost function HoldingAt(g: Registers, address: Word): Word
    requires WellSized(g) && HoldingRange(address, 1)
  {
    if OutputRange(address, 1) then RegisterAt(g.output, address - OUTPUT_START)
    else RegisterAt(g.config, address - CONFIG_START)
  }

  // A write stores the two bytes sent for each register exchanged, and leaves every other register as it was.
  lemma WriteHoldingEffect(g: Registers, start: Word, data: seq<Byte>, address: Word)
    requires WellSized(g) && |data| % 2 == 0 && |data| / 2 < 0x1_0000 && HoldingRange(start, |data| / 2)
    requires HoldingRange(address, 1)
    ensures HoldingAt(WriteHolding(g, start, data), address)
            == if start <= address < start + |data| / 2
               then ToWord(data[2 * (address - start) + 1], data[2 * (address - start)])
               else HoldingAt(g, address)
  {
    hide Put, RegisterAt, ToWord;
    if OutputRange(start, |data| / 2) {
      if OutputRange(address, 1) {
        PutRegister(g.output, start - OUTPUT_START, data, address - OUTPUT_START);
      }
    } else if !OutputRange(address, 1) {
      PutRegister(g.config, start - CONFIG_START, data, address - CONFIG_START);
    }
  }

  lemma PutRegister(store: seq<Byte>, first: nat, data: seq<Byte>, r: nat)
    requires |data| % 2 == 0 && 2 * first + |data| <= |store| && 2 * r + 1 < |store|
    ensures RegisterAt(Put(store, first, data), r)
            == if first <= r < first + |data| / 2 then ToWord(data[2 * (r - first) + 1], data[2 * (r - first)])
               else RegisterAt(store, r)
  {
    if r < first || first + |data| / 2 <= r {
      WriteIsLocal(store, first, data, r);
    } else {
      var after, k := Put(store, first, data), 2 * (r - first);
      assert after[2 * first + k] == data[k] && after[2 * first + k + 1] == data[k + 1];
    }
  }

  // Overwriting the next two bytes behind a part that is done.
  lemma ExtendDone(pre: seq<Byte>, done: seq<Byte>, rest: seq<Byte>, x: Byte, y: Byte)
    requires |rest| >= 2
    ensures var before := pre + done + rest;
            before[|pre| + |done| := x][|pre| + |done| + 1 := y] == pre + (done + [x, y]) + rest[2..]
  {
  }

  // An assembly in which the first i registers from first on are overwritten.
  ghost function Stored(all: seq<Byte>, first: nat, data: seq<Byte>, i: nat): (r: seq<Byte>)
    requires 2 * (first + i) <= |all| && 2 * i <= |data|
    ensures |r| == |all|
  {
    all[..2 * first] + data[..2 * i] + all[2 * (first + i)..]
  }

  lemma StoreStep(all: seq<Byte>, first: nat, data: seq<Byte>, i: nat)
    requires 2 * (first + i) + 2 <= |all| && 2 * i + 2 <= |data|
    ensures Stored(all, first, data, i)[2 * (first + i) := data[2 * i]][2 * (first + i) + 1 := data[2 * i + 1]]
            == Stored(all, first, data, i + 1)
  {
    var rest := all[2 * (first + i)..];
    ExtendDone(all[..2 * first], data[..2 * i], rest, data[2 * i], data[2 * i + 1]);
    assert data[..2 * (i + 1)] == data[..2 * i] + [data[2 * i], data[2 * i + 1]];
    assert rest[2..] == all[2 * (first + i + 1)..];
  }

  // A buffer into which i registers of a store from first on were copied from index at on.
  ghost function Copied(all: seq<Byte>, at: nat, store: seq<Byte>, first: nat, i: nat): (r: seq<Byte>)
    requires 2 * (first + i) <= |store| && at + 2 * i <= |all|
    ensures |r| == |all|
  {
    all[..at] + Answer(store, first, i) + all[at + 2 * i..]
  }

  lemma CopyStarts(all: seq<Byte>, at: nat, store: seq<Byte>, first: nat)
    requires 2 * first <= |store| && at <= |all|
    ensures Copied(all, at, store, first, 0) == all
  {
  }

  lemma CopyStep(all: seq<Byte>, at: nat, store: seq<Byte>, first: nat, i: nat)
    requires 2 * (first + i) + 2 <= |store| && at + 2 * i + 2 <= |all|
    ensures Copied(all, at, store, first, i)
              [at + 2 * i := store[2 * (first + i) + 1]][at + 2 * i + 1 := store[2 * (first + i)]]
            == Copied(all, at, store, first, i + 1)
  {
    var rest := all[at + 2 * i..];
    AnswerGrows(store, first, i);
    ExtendDone(all[..at], Answer(store, first, i), rest, store[2 * (first + i) + 1], store[2 * (first + i)]);
    assert rest[2..] == all[at + 2 * (i + 1)..];
  }

  // ---- The map as the source keeps it -------------------------------------

  class RegisterMap {
    const input: array<Byte>    // g_assembly_data064
    const output: array<Byte>   // g_assembly_data096
    const config: array<Byte>   // g_assembly_data097
    var ready: bool             // whether the assembly mutex exists

    ghost predicate Valid()
      reads this
    {
      && input.Length == 32 && output.Length == 32 && config.Length == 10
      && input != output && input != config && output != config
    }

    ghost function View(): (g: Registers)
      requires Valid()
      reads this, input, output, config
      ensures WellSized(g)
    {
      Registers(input[..], output[..], config[..], ready)
    }

    constructor ()
      ensures Valid() && fresh(input) && fresh(output) && fresh(config)
    {
      input := new Byte[32](_ => 0);
      output := new Byte[32](_ => 0);
      config := new Byte[10](_ => 0);
      ready := true;
    }

    static method StorePair(a: array<Byte>, i: nat, x: Byte, y: Byte)
      requires i + 1 < a.Length
      modifies a
      ensures a[..] == old(a[..])[i := x][i + 1 := y]
    {
      a[i] := x;
      a[i + 1] := y;
    }

    // One turn of the loop shared by the reads
    static method CopyOne(assembly: array<Byte>, first: nat, i: nat, data: array<Byte>, at: nat, ghost all: seq<Byte>)
      requires 2 * (first + i) + 2 <= assembly.Length && at + 2 * i + 2 <= data.Length && data != assembly
      requires |all| == data.Length && data[..] == Copied(all, at, assembly[..], first, i)
      modifies data
      ensures data[..] == Copied(all, at, assembly[..], first, i + 1)
    {
      hide Copied;
      var byteOffset := (first + i) * 2;
      var lowByte := assembly[byteOffset];
      var highByte := assembly[byteOffset + 1];
      CopyStep(all, at, assembly[..], first, i);
      StorePair(data, at + i * 2, highByte, lowByte);
    }

    // The loop shared by the three reads: registers of one assembly into data from index at on.
    static method CopyRegisters(assembly: array<Byte>, first: nat, quantity: nat, data: array<Byte>, at: nat)
      requires 2 * (first + quantity) <= assembly.Length && at + 2 * quantity <= data.Length && data != assembly
      modifies data
      ensures data[..] == Copied(old(data[..]), at, assembly[..], first, quantity)
    {
      hide Copied;
      CopyStarts(data[..], at, assembly[..], first);
      for i := 0 to quantity
        invariant data[..] == Copied(old(data[..]), at, assembly[..], first, i)
      {
        CopyOne(assembly, first, i, data, at, old(data[..]));
      }
    }

    // modbus_read_input_registers
    method ReadInput(start: Word, quantity: Word, data: array<Byte>, at: nat) returns (ok: bool)
      requires Valid() && data != input && data != output && data != config
      requires InputRange(start, quantity) ==> at + 2 * quantity <= data.Length
      modifies data
      ensures ok == (ready && InputRange(start, quantity))
      ensures !ok ==> data[..] == old(data[..])
      ensures ok ==> data[..] == old(data[..at]) + ReadInputBytes(View(), start, quantity) + old(data[at + 2 * quantity..])
    {
      if start > INPUT_REG_END || quantity == 0 || start + quantity > INPUT_REG_END + 1 {
        return false;
      }
      if !ready {
        return false;
      }
      CopyRegisters(input, start, quantity, data, at);
      return true;
    }

    // modbus_read_holding_registers
    method ReadHolding(start: Word, quantity: Word, data: array<Byte>, at: nat) returns (ok: bool)
      requires Valid() && data != input && data != output && data != config
      requires HoldingRange(start, quantity) ==> at + 2 * quantity <= data.Length
      modifies data
      ensures ok == (ready && HoldingRange(start, quantity))
      ensures !ok ==> data[..] == old(data[..])
      ensures ok ==> data[..] == old(data[..at]) + ReadHoldingBytes(View(), start, quantity) + old(data[at + 2 * quantity..])
    {
      hide Answer;
      if start >= OUTPUT_START && start + quantity <= OUTPUT_END + 1 {
        if !ready {
          return false;
        }
        CopyRegisters(output, start - OUTPUT_START, quantity, data, at);
        return true;
      }
      if start >= CONFIG_START && start + quantity <= CONFIG_END + 1 {
        if !ready {
          return false;
        }
        CopyRegisters(config, start - CONFIG_START, quantity, data, at);
        return true;
      }
      return false;
    }

    // The loop shared by the two writes.
    static method StoreRegisters(assembly: array<Byte>, first: nat, quantity: nat, data: seq<Byte>)
      requires 2 * (first + quantity) <= assembly.Length && 2 * quantity <= |data|
      modifies assembly
      ensures assembly[..] == Put(old(assembly[..]), first, data[..2 * quantity])
    {
      hide ToWord, SwapWord, LowByte, HighByte;
      ghost var all := assembly[..];
      for i := 0 to quantity
        invariant assembly[..] == Stored(all, first, data, i)
      {
        var byteOffset := (first + i) * 2;
        var beValue := ToWord(data[i * 2], data[i * 2 + 1]);
        var leValue := SwapWord(beValue);
        SwapWordEffect(data[i * 2], data[i * 2 + 1]);
        StorePair(assembly, byteOffset, LowByte(leValue), HighByte(leValue));
        StoreStep(all, first, data, i);
      }
    }

    // modbus_write_holding_registers
    method WriteMultiple(start: Word, quantity: Word, data: seq<Byte>) returns (ok: bool)
      requires Valid() && 2 * quantity <= |data|
      modifies output, config
      ensures ok == (ready && HoldingRange(start, quantity))
      ensures View() == if ok then WriteHolding(old(View()), start, data[..2 * quantity]) else old(View())
    {
      if start >= OUTPUT_START && start + quantity <= OUTPUT_END + 1 {
        if !ready {
          return false;
        }
        StoreRegisters(output, start - OUTPUT_START, quantity, data);
        return true;
      }
      if start >= CONFIG_START && start + quantity <= CONFIG_END + 1 {
        if !ready {
          return false;
        }
        StoreRegisters(config, start - CONFIG_START, quantity, data);
        return true;
      }
      return false;
    }

    // modbus_write_holding_register
    method WriteSingle(address: Word, value: Word) returns (ok: bool)
      requires Valid()
      modifies output, config
      ensures ok == (ready && HoldingRange(address, 1))
      ensures View() == if ok then WriteHolding(old(View()), address, [HighByte(value), LowByte(value)]) else old(View())
    {
      var data: seq<Byte> := [HighByte(value), LowByte(value)];
      ok := WriteMultiple(address, 1, data);
      assert data[..2] == [HighByte(value), LowByte(value)];
    }
  }
}
