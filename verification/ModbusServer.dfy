/**
  Framing and dispatch of components/modbus_tcp/src/modbus_protocol.c, against the MODBUS Application Protocol
  Specification V1.1b3 (sections 6.3, 6.4, 6.6, 6.12 and 7) and the MBAP header of the MODBUS Messaging on
  TCP/IP Implementation Guide V1.0b (section 3.1.3).
*/
module ModbusServer {
  import opened ModbusRegisters

  const FC_READ_HOLDING: Byte := 0x03
  const FC_READ_INPUT: Byte := 0x04
  const FC_WRITE_SINGLE: Byte := 0x06
  const FC_WRITE_MULTIPLE: Byte := 0x10
  const EX_ILLEGAL_FUNCTION: Byte := 0x01
  const EX_ILLEGAL_DATA_ADDRESS: Byte := 0x02
  const EX_ILLEGAL_DATA_VALUE: Byte := 0x03

  const HEADER_SIZE: nat := 6
  const RESPONSE_BUFFER: nat := 256

  // ---- What a request means -----------------------------------------------

  // One request: the header's transaction id, then unit, function code and data.
  datatype Request = Request(tidHigh: Byte, tidLow: Byte, unit: Byte, fc: Byte, data: seq<Byte>)

  // function_code | 0x80
  function Flagged(fc: Byte): Byte {
    if fc < 0x80 then fc + 0x80 else fc
  }

  // An answer as the standard puts it: a normal response PDU, or an exception code.
  datatype Answered = Normal(pdu: seq<Byte>) | Refused(code: Byte)

  ghost function WordAt(data: seq<Byte>, i: nat): Word
    requires i + 1 < |data|
  {
    ToWord(data[i], data[i + 1])
  }

  ghost function AnswerRead(fc: Byte, data: seq<Byte>, inRange: bool, bytes: seq<Byte>): Answered
    requires |data| >= 4 && (inRange ==> |bytes| < 256)
  {
    if WordAt(data, 2) == 0 || WordAt(data, 2) > 125 then Refused(EX_ILLEGAL_DATA_VALUE)
    else if !inRange then Refused(EX_ILLEGAL_DATA_ADDRESS)
    else Normal([fc, |bytes| as Byte] + bytes)
  }

  // Registers and answer after one request; the order of the checks is part of the meaning.
  ghost function Serve(g: Registers, q: Request): (r: (Registers, Answered))
    requires WellSized(g)
    ensures WellSized(r.0)
  {
    if q.fc == FC_READ_HOLDING then
      if |q.data| < 4 then (g, Refused(EX_ILLEGAL_DATA_VALUE))
      else
        var ok := g.ready && HoldingRange(WordAt(q.data, 0), WordAt(q.data, 2));
        (g, AnswerRead(q.fc, q.data, ok, if ok then ReadHoldingBytes(g, WordAt(q.data, 0), WordAt(q.data, 2)) else []))
    else if q.fc == FC_READ_INPUT then
      if |q.data| < 4 then (g, Refused(EX_ILLEGAL_DATA_VALUE))
      else
        var ok := g.ready && InputRange(WordAt(q.data, 0), WordAt(q.data, 2));
        (g, AnswerRead(q.fc, q.data, ok, if ok then ReadInputBytes(g, WordAt(q.data, 0), WordAt(q.data, 2)) else []))
    else if q.fc == FC_WRITE_SINGLE then
      if |q.data| < 4 then (g, Refused(EX_ILLEGAL_DATA_VALUE))
      else if !(g.ready && HoldingRange(WordAt(q.data, 0), 1)) then (g, Refused(EX_ILLEGAL_DATA_ADDRESS))
      else (WriteHolding(g, WordAt(q.data, 0), q.data[2..4]), Normal([q.fc] + q.data[..4]))
    else if q.fc == FC_WRITE_MULTIPLE then
      if |q.data| < 6 then (g, Refused(EX_ILLEGAL_DATA_VALUE))
      else
        var quantity := WordAt(q.data, 2);
        if quantity == 0 || quantity > 123 || q.data[4] as int != quantity * 2 || |q.data| < 5 + q.data[4] as int
        then (g, Refused(EX_ILLEGAL_DATA_VALUE))
        else if !(g.ready && HoldingRange(WordAt(q.data, 0), quantity)) then (g, Refused(EX_ILLEGAL_DATA_ADDRESS))
        else (WriteHolding(g, WordAt(q.data, 0), q.data[5..5 + 2 * quantity]), Normal([q.fc] + q.data[..4]))
    else (g, Refused(EX_ILLEGAL_FUNCTION))
  }

  ghost function PduOf(q: Request, a: Answered): seq<Byte> {
    match a
    case Normal(pdu) => pdu
    case Refused(code) => [Flagged(q.fc), code]
  }

  // A PDU behind its MBAP header; the length field counts the unit identifier and the PDU.
  ghost function Frame(q: Request, pdu: seq<Byte>): (r: seq<Byte>)
    requires |pdu| + 1 < 0x1_0000
  {
    [q.tidHigh, q.tidLow, 0, 0, HighByte(|pdu| + 1), LowByte(|pdu| + 1), q.unit] + pdu
  }

  // A normal answer names its function; a refusal carries one of three codes.
  lemma AnswerHead(g: Registers, q: Request)
    requires WellSized(g)
    ensures var a := Serve(g, q).1;
            && 2 <= |PduOf(q, a)| <= 34
            && (a.Normal? ==> a.pdu[0] == q.fc && q.fc < 0x80)
            && (a.Refused? ==> 1 <= a.code <= 3)
  {
  }

  lemma FrameFields(q: Request, pdu: seq<Byte>)
    requires 0 < |pdu| && |pdu| + 1 < 0x1_0000
    ensures var r := Frame(q, pdu);
            && |r| == |pdu| + 7
            && r[0] == q.tidHigh && r[1] == q.tidLow && r[2] == 0 && r[3] == 0
            && ToWord(r[4], r[5]) == |r| - HEADER_SIZE
            && r[6] == q.unit && r[7] == pdu[0] && r[7..] == pdu
  {
  }

  // The first eight bytes of a message whose length field is length.
  ghost function Head(q: Request, length: Word, fc: Byte): seq<Byte> {
    [q.tidHigh, q.tidLow, 0, 0, HighByte(length), LowByte(length), q.unit, fc]
  }

  lemma FrameFromHead(q: Request, fc: Byte, rest: seq<Byte>)
    requires |rest| < 256
    ensures Frame(q, [fc] + rest) == Head(q, |rest| + 2, fc) + rest
  {
  }

  // The bytes of the one reply.
  ghost function Reply(g: Registers, q: Request): (r: seq<Byte>)
    requires WellSized(g)
  {
    AnswerHead(g, q);
    Frame(q, PduOf(q, Serve(g, q).1))
  }

  // Every reply echoes transaction and unit, carries protocol 0 and the number of bytes that follow the length
  // field, is a normal reply to the same function or a flagged exception with a known code, and fits its buffer.
  lemma ReplyIsWellFormed(g: Registers, q: Request)
    requires WellSized(g)
    ensures var r := Reply(g, q);
            && HEADER_SIZE + 3 <= |r| <= 41 <= RESPONSE_BUFFER
            && r[0] == q.tidHigh && r[1] == q.tidLow && r[2] == 0 && r[3] == 0
            && ToWord(r[4], r[5]) == |r| - HEADER_SIZE
            && r[6] == q.unit
            && ((r[7] == q.fc && q.fc < 0x80) || (r[7] as int == q.fc as int % 128 + 128 && |r| == 9 && 1 <= r[8] <= 3))
  {
    hide Serve, Frame, Flagged;
    AnswerHead(g, q);
    FlaggedIs(q.fc);
    FrameFields(q, PduOf(q, Serve(g, q).1));
  }

  // Quantities above 16 never reach the data part of the 256-byte buffer, although the protocol check lets
  // quantities up to 125 through, which would need 259 bytes.
  lemma AcceptedQuantityFits(start: Word, quantity: Word)
    requires HoldingRange(start, quantity) || InputRange(start, quantity)
    ensures 9 + 2 * quantity <= 41 <= RESPONSE_BUFFER
  {
  }

  // A refused request changes no register; an accepted one changes only the written range.
  lemma OnlyAcceptedWritesChange(g: Registers, q: Request)
    requires WellSized(g)
    ensures var (g', a) := Serve(g, q);
            && g'.input == g.input && g'.ready == g.ready
            && (g' != g ==> a.Normal? && (q.fc == FC_WRITE_SINGLE || q.fc == FC_WRITE_MULTIPLE)
                            && (g'.output == g.output || g'.config == g.config))
  {
  }

  // ---- From requests to registers and back --------------------------------

  ghost predicate AcceptedWrite(g: Registers, q: Request) {
    && q.fc == FC_WRITE_MULTIPLE && |q.data| >= 6
    && 1 <= WordAt(q.data, 2) <= 123 && q.data[4] as int == WordAt(q.data, 2) * 2
    && |q.data| >= 5 + q.data[4] as int
    && g.ready && HoldingRange(WordAt(q.data, 0), WordAt(q.data, 2))
  }

  // The value of the register at an address, input or holding, whichever assembly it is in.
  ghost function RegisterOf(g: Registers, fc: Byte, address: nat): Word
    requires WellSized(g) && address < 0x1_0000
    requires if fc == FC_READ_HOLDING then HoldingRange(address, 1) else InputRange(address, 1)
  {
    if fc != FC_READ_HOLDING then RegisterAt(g.input, address) else HoldingAt(g, address)
  }

  // What the register map makes of a read
  ghost predicate ReadOk(g: Registers, q: Request)
    requires |q.data| >= 4
  {
    g.ready && if q.fc == FC_READ_HOLDING then HoldingRange(WordAt(q.data, 0), WordAt(q.data, 2))
               else InputRange(WordAt(q.data, 0), WordAt(q.data, 2))
  }

  ghost function ReadData(g: Registers, q: Request): (r: seq<Byte>)
    requires WellSized(g) && |q.data| >= 4 && ReadOk(g, q)
    ensures |r| == 2 * WordAt(q.data, 2) && |r| <= 32
  {
    if q.fc == FC_READ_HOLDING then ReadHoldingBytes(g, WordAt(q.data, 0), WordAt(q.data, 2))
    else ReadInputBytes(g, WordAt(q.data, 0), WordAt(q.data, 2))
  }

  lemma ReadAnswer(g: Registers, q: Request)
    requires WellSized(g) && (q.fc == FC_READ_HOLDING || q.fc == FC_READ_INPUT)
    requires |q.data| >= 4 && 0 < WordAt(q.data, 2) <= 125
    ensures Serve(g, q).1 == if !ReadOk(g, q) then Refused(EX_ILLEGAL_DATA_ADDRESS)
                             else Normal([q.fc, |ReadData(g, q)| as Byte] + ReadData(g, q))
  {
  }

  lemma ReadFrame(q: Request, data: seq<Byte>)
    requires |data| <= 32
    ensures Head(q, |data| + 3, q.fc) + [|data| as Byte] + data == Frame(q, [q.fc, |data| as Byte] + data)
  {
    FrameFromHead(q, q.fc, [|data| as Byte] + data);
    assert [q.fc] + ([|data| as Byte] + data) == [q.fc, |data| as Byte] + data;
  }

  // A reply to a read, with these data bytes.
  ghost predicate CarriesData(r: seq<Byte>, fc: Byte, bytes: seq<Byte>) {
    |r| == 9 + |bytes| && r[7] == fc && r[8] as int == |bytes| && r[9..] == bytes
  }

  // A read, of holding or input registers, that passes every check
  ghost predicate AcceptedRead(g: Registers, q: Request) {
    && (q.fc == FC_READ_HOLDING || q.fc == FC_READ_INPUT) && |q.data| >= 4
    && 1 <= WordAt(q.data, 2) <= 125 && ReadOk(g, q)
  }

  lemma ReadReplyData(g: Registers, q: Request)
    requires WellSized(g) && AcceptedRead(g, q)
    ensures CarriesData(Reply(g, q), q.fc, ReadData(g, q))
  {
    AnswerHead(g, q);
    ReadAnswer(g, q);
    hide Serve, Frame, ReadData, ReadOk;
    var bytes := ReadData(g, q);
    var pdu := [q.fc, |bytes| as Byte] + bytes;
    FrameFields(q, pdu);
    var r := Reply(g, q);
    assert r[8] == r[7..][1] && r[9..] == r[7..][2..];
  }

  lemma ReadBytesAreRegisters(g: Registers, q: Request, i: nat)
    requires WellSized(g) && AcceptedRead(g, q) && i < WordAt(q.data, 2)
    ensures ToWord(ReadData(g, q)[2 * i], ReadData(g, q)[2 * i + 1]) == RegisterOf(g, q.fc, WordAt(q.data, 0) + i)
  {
    hide Answer, ToWord;
    var start, quantity := WordAt(q.data, 0), WordAt(q.data, 2);
    if q.fc == FC_READ_INPUT {
      AnswerMeaning(g.input, start, quantity, i);
    } else if OutputRange(start, quantity) {
      AnswerMeaning(g.output, start - OUTPUT_START, quantity, i);
    } else {
      AnswerMeaning(g.config, start - CONFIG_START, quantity, i);
    }
  }

  // The i-th value of the reply to an accepted read is the i-th register asked for, high byte first.
  lemma ReadCarriesRegisters(g: Registers, q: Request, i: nat)
    requires WellSized(g) && AcceptedRead(g, q) && i < WordAt(q.data, 2)
    ensures var r := Reply(g, q);
            && |r| == 9 + 2 * WordAt(q.data, 2)
            && ToWord(r[9 + 2 * i], r[10 + 2 * i]) == RegisterOf(g, q.fc, WordAt(q.data, 0) + i)
  {
    hide Reply, ToWord, RegisterOf, ReadData, ReadOk;
    ReadReplyData(g, q);
    ReadBytesAreRegisters(g, q, i);
    var r := Reply(g, q);
    assert r[9..][2 * i] == r[9 + 2 * i] && r[9..][2 * i + 1] == r[10 + 2 * i];
  }

  // ---- What an accepted write stores ----------------------------------------

  ghost predicate AcceptedSingle(g: Registers, q: Request) {
    q.fc == FC_WRITE_SINGLE && |q.data| >= 4 && g.ready && HoldingRange(WordAt(q.data, 0), 1)
  }

  // A write, of one register or of several, that passes every check
  ghost predicate Accepts(g: Registers, q: Request) {
    |q.data| >= 4 && (AcceptedSingle(g, q) || AcceptedWrite(g, q))
  }

  ghost function WriteCount(g: Registers, q: Request): (n: Word)
    requires Accepts(g, q)
  {
    if q.fc == FC_WRITE_SINGLE then 1 else WordAt(q.data, 2)
  }

  // The register data of the request
  ghost function WriteData(g: Registers, q: Request): (data: seq<Byte>)
    requires Accepts(g, q)
    ensures |data| == 2 * WriteCount(g, q) && |data| % 2 == 0
  {
    if q.fc == FC_WRITE_SINGLE then q.data[2..4] else q.data[5..5 + 2 * WordAt(q.data, 2)]
  }

  lemma AcceptedStores(g: Registers, w: Request)
    requires WellSized(g) && Accepts(g, w)
    ensures HoldingRange(WordAt(w.data, 0), WriteCount(g, w))
    ensures Serve(g, w).0 == WriteHolding(g, WordAt(w.data, 0), WriteData(g, w))
  {
  }

  // After an accepted write each register it names holds the bytes sent for it, exchanged, and every other holding
  // register holds what it held.
  lemma WriteStores(g: Registers, w: Request, address: Word)
    requires WellSized(g) && Accepts(g, w) && HoldingRange(address, 1)
    ensures var i := address - WordAt(w.data, 0);
            HoldingAt(Serve(g, w).0, address)
            == if 0 <= i < WriteCount(g, w) then ToWord(WriteData(g, w)[2 * i + 1], WriteData(g, w)[2 * i])
               else HoldingAt(g, address)
  {
    AcceptedStores(g, w);
    hide Serve, WriteHolding, HoldingAt, WriteData, WriteCount, Accepts, HoldingRange, ToWord;
    WriteHoldingEffect(g, WordAt(w.data, 0), WriteData(g, w), address);
  }

  lemma AcceptedIsNormal(g: Registers, w: Request)
    requires WellSized(g) && Accepts(g, w)
    ensures |w.data| >= 4 && Serve(g, w).1 == Normal([w.fc] + w.data[..4])
  {
    hide WriteHolding;
  }

  // The reply to an accepted write repeats the first four bytes of the request: address and value, or quantity.
  lemma WriteIsEchoed(g: Registers, w: Request)
    requires WellSized(g) && Accepts(g, w)
    ensures |w.data| >= 4 && |Reply(g, w)| == 12 && Reply(g, w)[7] == w.fc && Reply(g, w)[8..12] == w.data[..4]
  {
    hide Serve, Accepts, Frame;
    AcceptedIsNormal(g, w);
    EchoFrame(w);
  }

  lemma EchoFrame(q: Request)
    requires |q.data| >= 4
    ensures var r := Frame(q, [q.fc] + q.data[..4]); |r| == 12 && r[7] == q.fc && r[8..12] == q.data[..4]
  {
    hide HighByte, LowByte;
  }

  // A read of so many holding registers from start on
  ghost predicate Reads(q: Request, start: nat, quantity: nat) {
    q.fc == FC_READ_HOLDING && |q.data| >= 4 && WordAt(q.data, 0) == start && WordAt(q.data, 2) == quantity
  }

  // A read of the registers that were just written
  lemma ReadOfWritten(g: Registers, start: Word, data: seq<Byte>, q: Request)
    requires WellSized(g) && g.ready && |data| % 2 == 0 && 0 < |data| / 2 <= 125 && HoldingRange(start, |data| / 2)
    requires Reads(q, start, |data| / 2)
    ensures CarriesData(Reply(WriteHolding(g, start, data), q), FC_READ_HOLDING, SwapPairs(data))
  {
    hide Reply, Serve, ReadHoldingBytes, CarriesData, WriteHolding, HoldingRange, WordAt, SwapPairs;
    WriteKeepsReady(g, start, data);
    WriteThenReadBytes(g, start, data);
    ReadReplyData(WriteHolding(g, start, data), q);
  }

  lemma WriteKeepsReady(g: Registers, start: Word, data: seq<Byte>)
    requires WellSized(g) && |data| % 2 == 0 && |data| / 2 < 0x1_0000 && HoldingRange(start, |data| / 2)
    ensures WriteHolding(g, start, data).ready == g.ready
  {
  }

  // ---- When a request is refused --------------------------------------------

  predicate Known(fc: Byte) {
    fc == FC_READ_HOLDING || fc == FC_READ_INPUT || fc == FC_WRITE_SINGLE || fc == FC_WRITE_MULTIPLE
  }

  // The data has the form that the function asks for.
  ghost predicate WellFormed(q: Request) {
    && |q.data| >= 4
    && (q.fc == FC_READ_HOLDING || q.fc == FC_READ_INPUT ==> 1 <= WordAt(q.data, 2) <= 125)
    && (q.fc == FC_WRITE_MULTIPLE ==>
          && |q.data| >= 6 && 1 <= WordAt(q.data, 2) <= 123
          && q.data[4] as int == 2 * WordAt(q.data, 2) && |q.data| >= 5 + q.data[4] as int)
  }

  // A request is answered normally exactly when it is an accepted read or write; otherwise the exception says what is
  // wrong with it: the function, the form of its data, or the registers it names.
  lemma AnswersIff(g: Registers, q: Request)
    requires WellSized(g)
    ensures var a := Serve(g, q).1;
            && (a.Normal? <==> AcceptedRead(g, q) || Accepts(g, q))
            && (a.Refused? ==> a.code == Complaint(q))
  {
  }

  // What the exception says is wrong
  ghost function Complaint(q: Request): Byte {
    if !Known(q.fc) then 1 else if !WellFormed(q) then 3 else 2
  }

  // The frame that is sent for any other request: nine bytes, the function with its highest bit set and that code.
  lemma RefusalIsSent(g: Registers, q: Request)
    requires WellSized(g) && !AcceptedRead(g, q) && !Accepts(g, q)
    ensures var r := Reply(g, q);
            |r| == 9 && r[7] as int == q.fc as int % 128 + 128 && r[8] == Complaint(q)
  {
    hide Serve, Accepts, AcceptedRead, Frame, Complaint, Flagged;
    AnswersIff(g, q);
    FlaggedIs(q.fc);
    ExceptionFrame(q, Flagged(q.fc), Complaint(q));
  }

  lemma FlaggedIs(fc: Byte)
    ensures Flagged(fc) as int == fc as int % 128 + 128
  {
  }

  lemma ExceptionFrame(q: Request, flagged: Byte, code: Byte)
    ensures var r := Frame(q, [flagged, code]); |r| == 9 && r[7] == flagged && r[8] == code
  {
    hide HighByte, LowByte;
  }

  lemma WriteThenReadBytes(g: Registers, start: Word, data: seq<Byte>)
    requires WellSized(g) && |data| % 2 == 0 && |data| / 2 < 0x1_0000 && HoldingRange(start, |data| / 2)
    ensures ReadHoldingBytes(WriteHolding(g, start, data), start, |data| / 2) == SwapPairs(data)
  {
    hide Answer, Put, SwapPairs;
    if OutputRange(start, |data| / 2) {
      ReadBackIsSwapped(g.output, start - OUTPUT_START, data);
    } else {
      ReadBackIsSwapped(g.config, start - CONFIG_START, data);
    }
  }

  // Over the wire: reading the registers that an accepted write, of one register or of several, has just written is
  // accepted too, and the reply carries the data sent with the two bytes of every register exchanged.
  lemma WrittenIsReadSwapped(g: Registers, w: Request, q: Request)
    requires WellSized(g) && Accepts(g, w) && Reads(q, WordAt(w.data, 0), WriteCount(g, w))
    ensures CarriesData(Reply(Serve(g, w).0, q), FC_READ_HOLDING, SwapPairs(WriteData(g, w)))
  {
    AcceptedStores(g, w);
    assert 0 < WriteCount(g, w) <= 125;
    hide Reply, Serve, CarriesData, WriteHolding, HoldingRange, WordAt, SwapPairs, WriteData, WriteCount;
    ReadOfWritten(g, WordAt(w.data, 0), WriteData(g, w), q);
  }

  // ---- The connection -----------------------------------------------------

  // How the next recv call on the socket turns out; Some(n) offers up to n of the waiting bytes.
  datatype Recv = Some(n: nat) | Closed | Reset | WouldBlock | Failed

  // What a recv call returned.
  datatype Received = Data(bytes: seq<Byte>) | End(why: Recv)

  // The stream the peer sends and the way the network hands it out; the peer closes when the plan ends.
  datatype Wire = Wire(stream: seq<Byte>, plan: seq<Recv>)

  function Taken(w: Wire, max: nat): nat
    requires w.plan != [] && w.plan[0].Some?
  {
    var n := if w.plan[0].n < max then w.plan[0].n else max;
    if n < |w.stream| then n else |w.stream|
  }

  // One recv call for at most max bytes; a call that finds nothing would block.
  function RecvResult(w: Wire, max: nat): Received {
    if w.plan == [] then End(Closed)
    else if !w.plan[0].Some? then End(w.plan[0])
    else if Taken(w, max) == 0 then End(WouldBlock)
    else Data(w.stream[..Taken(w, max)])
  }

  function AfterRecv(w: Wire, max: nat): Wire {
    if w.plan == [] then w
    else if !w.plan[0].Some? then w.(plan := w.plan[1..])
    else Wire(w.stream[Taken(w, max)..], w.plan[1..])
  }

  // The receive loop for the rest of a request: the bytes, unless the connection ends first.
  datatype Gathered = Whole(bytes: seq<Byte>, rest: Wire) | Broken(rest: Wire)

  ghost function Gather(w: Wire, need: nat): (r: Gathered)
    decreases |w.plan|
  {
    if need == 0 then Whole([], w)
    else
      match RecvResult(w, need)
      case Data(bytes) =>
        Prepend(bytes, Gather(AfterRecv(w, need), need - |bytes|))
      case End(why) =>
        if why.WouldBlock? then Gather(AfterRecv(w, need), need) else Broken(AfterRecv(w, need))
  }

  // The same, with bytes received earlier in front.
  ghost function Prepend(done: seq<Byte>, g: Gathered): Gathered {
    match g
    case Whole(bytes, rest) => Whole(done + bytes, rest)
    case Broken(_) => g
  }

  lemma PrependTwice(a: seq<Byte>, b: seq<Byte>, g: Gathered)
    ensures Prepend(a, Prepend(b, g)) == Prepend(a + b, g)
  {
    if g.Whole? {
      assert a + (b + g.bytes) == (a + b) + g.bytes;
    }
  }

  // However the body is split across recv calls, the bytes gathered are the next bytes of the stream.
  lemma {:induction false} GatherIgnoresSplit(w: Wire, need: nat)
    ensures var r := Gather(w, need);
            r.Whole? ==> |w.stream| >= need && r.bytes == w.stream[..need] && r.rest.stream == w.stream[need..]
    decreases |w.plan|
  {
    if need > 0 && w.plan != [] {
      match RecvResult(w, need)
      case Data(bytes) =>
        var k := |bytes|;
        GatherIgnoresSplit(AfterRecv(w, need), need - k);
        if Gather(w, need).Whole? {
          assert w.stream[..need] == w.stream[..k] + w.stream[k..][..need - k];
          assert w.stream[k..][need - k..] == w.stream[need..];
        }
      case End(why) =>
        if why.WouldBlock? {
          GatherIgnoresSplit(AfterRecv(w, need), need);
        }
    }
  }

  // Enough offered data, with nothing but would-block in between, always completes the body.
  ghost predicate Delivers(w: Wire, need: nat)
    decreases |w.plan|
  {
    need == 0 ||
    (w.plan != [] && (w.plan[0].Some? || w.plan[0].WouldBlock?)
     && var got := if w.plan[0].Some? then Taken(w, need) else 0;
        Delivers(AfterRecv(w, need), need - got))
  }

  lemma {:induction false} GatherCompletes(w: Wire, need: nat)
    requires Delivers(w, need)
    ensures Gather(w, need).Whole?
    decreases |w.plan|
  {
    if need > 0 {
      var got := if w.plan[0].Some? then Taken(w, need) else 0;
      GatherCompletes(AfterRecv(w, need), need - got);
    }
  }

  // The fate of one call of modbus_tcp_handle_request.
  datatype Outcome = NoRequest(keepOpen: bool, rest: Wire) | Got(request: Request, rest: Wire)

  predicate ValidHeader(h: seq<Byte>)
    requires |h| == HEADER_SIZE
  {
    ToWord(h[2], h[3]) == 0 && 2 <= ToWord(h[4], h[5]) <= 253
  }

  // Protocol 0 and a length of 2 to 253, both high byte first
  lemma ValidHeaderIff(h: seq<Byte>)
    requires |h| == HEADER_SIZE
    ensures ValidHeader(h) <==> h[2] == 0 && h[3] == 0 && h[4] == 0 && 2 <= h[5] <= 253
  {
    SmallWord(h[2], h[3]);
    SmallWord(h[4], h[5]);
    hide ToWord;
  }

  lemma SmallWord(high: Byte, low: Byte)
    ensures if high == 0 then ToWord(high, low) == low as int else ToWord(high, low) >= 256
  {
  }

  ghost function Incoming(w: Wire): Outcome {
    var w1 := AfterRecv(w, HEADER_SIZE);
    match RecvResult(w, HEADER_SIZE)
    case End(why) => NoRequest(!why.Closed? && !why.Reset?, w1)
    case Data(h) =>
      if |h| < HEADER_SIZE then NoRequest(true, w1)
      else if !ValidHeader(h) then NoRequest(false, w1)
      else
        match Gather(w1, ToWord(h[4], h[5]))
        case Broken(rest) => NoRequest(false, rest)
        case Whole(b, rest) =>
          GatherIgnoresSplit(w1, ToWord(h[4], h[5]));
          Got(Request(h[0], h[1], b[0], b[1], b[2..]), rest)
  }

  // A request is exactly what the stream says, and the next call starts right behind it.
  lemma RequestIsNextInStream(w: Wire)
    ensures var o := Incoming(w);
            o.Got? ==>
              && |w.stream| >= HEADER_SIZE && ValidHeader(w.stream[..HEADER_SIZE])
              && var n := ToWord(w.stream[4], w.stream[5]);
                 && |w.stream| >= HEADER_SIZE + n
                 && o.request == Request(w.stream[0], w.stream[1], w.stream[6], w.stream[7],
                                         w.stream[8..HEADER_SIZE + n])
                 && o.rest.stream == w.stream[HEADER_SIZE + n..]
  {
    var w1 := AfterRecv(w, HEADER_SIZE);
    if Incoming(w).Got? {
      var h := RecvResult(w, HEADER_SIZE).bytes;
      var n := ToWord(h[4], h[5]);
      GatherIgnoresSplit(w1, n);
      assert w1.stream == w.stream[HEADER_SIZE..];
      assert Gather(w1, n).bytes == w1.stream[..n];
      assert w1.stream[..n][2..] == w1.stream[2..n] == w.stream[8..HEADER_SIZE + n];
    }
  }

  // A valid header received whole and a body that arrives, in any pieces, make a request.
  lemma WholeRequestsAreGot(w: Wire)
    requires RecvResult(w, HEADER_SIZE).Data? && |RecvResult(w, HEADER_SIZE).bytes| == HEADER_SIZE
    requires ValidHeader(w.stream[..HEADER_SIZE])
    requires Delivers(AfterRecv(w, HEADER_SIZE), ToWord(w.stream[4], w.stream[5]))
    ensures Incoming(w).Got?
  {
    GatherCompletes(AfterRecv(w, HEADER_SIZE), ToWord(w.stream[4], w.stream[5]));
  }

  // ---- A whole connection --------------------------------------------------

  lemma {:induction false} GatherUsesPlan(w: Wire, need: nat)
    ensures |Gather(w, need).rest.plan| <= |w.plan|
    decreases |w.plan|
  {
    if need > 0 && w.plan != [] {
      match RecvResult(w, need)
      case Data(bytes) => GatherUsesPlan(AfterRecv(w, need), need - |bytes|);
      case End(_) => GatherUsesPlan(AfterRecv(w, need), need);
    }
  }

  // A call that leaves the connection open has received something.
  lemma IncomingUsesPlan(w: Wire)
    ensures var o := Incoming(w); (o.NoRequest? && !o.keepOpen) || |o.rest.plan| < |w.plan|
  {
    if w.plan != [] && RecvResult(w, HEADER_SIZE).Data? {
      var h, w1 := RecvResult(w, HEADER_SIZE).bytes, AfterRecv(w, HEADER_SIZE);
      if |h| == HEADER_SIZE {
        GatherUsesPlan(w1, ToWord(h[4], h[5]));
      }
    }
  }

  // The requests of a connection, call after call until it is closed.
  ghost function Session(w: Wire): seq<Request>
    decreases |w.plan|
  {
    IncomingUsesPlan(w);
    match Incoming(w)
    case NoRequest(keepOpen, rest) => if keepOpen then Session(rest) else []
    case Got(q, rest) => [q] + Session(rest)
  }

  // The registers after some requests, and the replies to them.
  ghost function Served(g: Registers, qs: seq<Request>): (r: Registers)
    requires WellSized(g)
    ensures WellSized(r)
  {
    if qs == [] then g else Serve(Served(g, qs[..|qs| - 1]), qs[|qs| - 1]).0
  }

  ghost function Replies(g: Registers, qs: seq<Request>): (r: seq<seq<Byte>>)
    requires WellSized(g)
    ensures |r| == |qs|
  {
    if qs == [] then []
    else Replies(g, qs[..|qs| - 1]) + [Reply(Served(g, qs[..|qs| - 1]), qs[|qs| - 1])]
  }

  lemma NothingServed(g: Registers)
    requires WellSized(g)
    ensures Served(g, []) == g && Replies(g, []) == []
  {
  }

  lemma OneMoreServed(g: Registers, qs: seq<Request>, q: Request)
    requires WellSized(g)
    ensures Served(g, qs + [q]) == Serve(Served(g, qs), q).0
    ensures Replies(g, qs + [q]) == Replies(g, qs) + [Reply(Served(g, qs), q)]
  {
    hide Serve, Reply;
    assert (qs + [q])[..|qs|] == qs;
  }

  lemma SessionGoesOn(w: Wire, done: seq<Request>)
    ensures done + Session(w)
            == match Incoming(w)
               case NoRequest(keepOpen, rest) => done + (if keepOpen then Session(rest) else [])
               case Got(q, rest) => (done + [q]) + Session(rest)
  {
    hide Incoming;
    IncomingUsesPlan(w);
    var o := Incoming(w);
    if o.Got? {
      assert done + ([o.request] + Session(o.rest)) == (done + [o.request]) + Session(o.rest);
    }
  }

  // The requests that lie in a stream of bytes one behind the other, up to the first that is invalid or incomplete.
  ghost function Requests(stream: seq<Byte>): seq<Request> {
    if |stream| < HEADER_SIZE || !ValidHeader(stream[..HEADER_SIZE]) then []
    else
      var end := HEADER_SIZE + ToWord(stream[4], stream[5]);
      if |stream| < end then []
      else [Request(stream[0], stream[1], stream[6], stream[7], stream[8..end])] + Requests(stream[end..])
  }

  // No call gets a header in pieces.
  ghost predicate HeadersWhole(w: Wire)
    decreases |w.plan|
  {
    IncomingUsesPlan(w);
    && (RecvResult(w, HEADER_SIZE).Data? ==> |RecvResult(w, HEADER_SIZE).bytes| == HEADER_SIZE)
    && match Incoming(w)
       case NoRequest(keepOpen, rest) => keepOpen ==> HeadersWhole(rest)
       case Got(_, rest) => HeadersWhole(rest)
  }

  // The wire in front of the call that closes the connection
  ghost function LastCall(w: Wire): Wire
    decreases |w.plan|
  {
    IncomingUsesPlan(w);
    match Incoming(w)
    case NoRequest(keepOpen, rest) => if keepOpen then LastCall(rest) else w
    case Got(_, rest) => LastCall(rest)
  }

  // What a call without any byte means for the connection: it is closed exactly when the peer closed or reset it.
  lemma NoBytesIff(w: Wire)
    requires RecvResult(w, HEADER_SIZE).End?
    ensures Incoming(w).NoRequest? && Incoming(w).rest == AfterRecv(w, HEADER_SIZE)
    ensures Incoming(w).keepOpen <==> w.plan != [] && (w.plan[0].Some? || w.plan[0].WouldBlock? || w.plan[0].Failed?)
  {
  }

  // A call that finds no request and leaves the connection open has taken nothing from the stream, if and only if it
  // did not get a header in pieces.
  lemma IdleKeepsStreamIff(w: Wire)
    ensures var o := Incoming(w);
            o.NoRequest? && o.keepOpen ==> (o.rest.stream == w.stream <==> RecvResult(w, HEADER_SIZE).End?)
  {
    if RecvResult(w, HEADER_SIZE).Data? {
      assert |AfterRecv(w, HEADER_SIZE).stream| < |w.stream|;
    }
  }

  // The beginning of a header that comes in pieces is dropped, and the next call looks for a header behind it.
  lemma SplitHeaderIsDropped(w: Wire)
    requires w.plan != [] && w.plan[0].Some? && 0 < w.plan[0].n < HEADER_SIZE && |w.stream| >= w.plan[0].n
    ensures Incoming(w) == NoRequest(true, Wire(w.stream[w.plan[0].n..], w.plan[1..]))
    ensures Session(w) == Session(Wire(w.stream[w.plan[0].n..], w.plan[1..]))
  {
    hide Gather;
  }

  lemma CallsWithoutData(w: Wire)
    requires HeadersWhole(w)
    ensures Incoming(w).NoRequest? && Incoming(w).keepOpen ==> RecvResult(w, HEADER_SIZE).End?
  {
  }

  // A request that a call finds is the first of the stream.
  lemma GotIsFirst(w: Wire)
    ensures var o := Incoming(w); o.Got? ==> Requests(w.stream) == [o.request] + Requests(o.rest.stream)
  {
    RequestIsNextInStream(w);
    hide Incoming, ValidHeader, ToWord;
  }

  lemma CallKeepsStream(w: Wire)
    requires HeadersWhole(w)
    ensures var o := Incoming(w);
            && (o.NoRequest? && o.keepOpen ==> o.rest.stream == w.stream && HeadersWhole(o.rest))
            && (o.Got? ==> HeadersWhole(o.rest))
  {
    IncomingUsesPlan(w);
    IdleKeepsStreamIff(w);
    CallsWithoutData(w);
    hide Incoming, RecvResult;
  }

  // What the server takes for requests are the first requests of the stream, in order, however bodies are split and
  // whenever the connection ends; the others are those that were left when it was closed.
  lemma {:induction false} SessionIsInStream(w: Wire)
    requires HeadersWhole(w)
    ensures Requests(w.stream) == Session(w) + Requests(LastCall(w).stream)
    ensures HeadersWhole(LastCall(w)) && Incoming(LastCall(w)).NoRequest? && !Incoming(LastCall(w)).keepOpen
    decreases |w.plan|
  {
    IncomingUsesPlan(w);
    GotIsFirst(w);
    CallKeepsStream(w);
    hide Incoming, Requests, RecvResult, HeadersWhole;
    match Incoming(w)
    case NoRequest(keepOpen, rest) =>
      if keepOpen {
        SessionIsInStream(rest);
      }
    case Got(q, rest) =>
      SessionIsInStream(rest);
      assert [q] + (Session(rest) + Requests(LastCall(w).stream)) == ([q] + Session(rest)) + Requests(LastCall(w).stream);
  }

  // The body behind the header arrives.
  ghost predicate BodyArrives(w: Wire) {
    |w.stream| >= HEADER_SIZE && Delivers(AfterRecv(w, HEADER_SIZE), ToWord(w.stream[4], w.stream[5]))
  }

  // So the server takes all of them, unless one is left behind which the network did not deliver: the peer closed in
  // front of it, or its body did not arrive.
  lemma WholeStreamIsServed(w: Wire)
    requires HeadersWhole(w)
    ensures var last := LastCall(w);
            || Session(w) == Requests(w.stream)
            || RecvResult(last, HEADER_SIZE).End?
            || !BodyArrives(last)
  {
    var last := LastCall(w);
    SessionIsInStream(w);
    if RecvResult(last, HEADER_SIZE).Data? && BodyArrives(last) {
      if Requests(last.stream) != [] {
        WholeRequestsAreGot(last);
        assert false;
      }
      assert Session(w) + [] == Session(w);
    }
  }

  class Connection {
    var wire: Wire
    var sent: seq<seq<Byte>>

    constructor (wire: Wire)
      ensures this.wire == wire && sent == []
    {
      this.wire := wire;
      sent := [];
    }

    method Receive(max: nat) returns (r: Received)
      modifies `wire
      ensures r == RecvResult(old(wire), max) && wire == AfterRecv(old(wire), max)
    {
      r := RecvResult(wire, max);
      wire := AfterRecv(wire, max);
    }

    method Send(bytes: seq<Byte>)
      modifies `sent
      ensures sent == old(sent) + [bytes]
    {
      sent := sent + [bytes];
    }
  }

  class Server {
    const regs: RegisterMap

    constructor (regs: RegisterMap)
      ensures this.regs == regs
    {
      this.regs := regs;
    }

    // What every response starts with.
    static method PutHead(response: array<Byte>, q: Request, length: Word, fc: Byte)
      requires response.Length >= 8
      modifies response
      ensures response[..] == Head(q, length, fc) + old(response[8..])
    {
      response[0], response[1] := q.tidHigh, q.tidLow;
      response[2], response[3] := 0, 0;
      response[4], response[5] := HighByte(length), LowByte(length);
      response[6], response[7] := q.unit, fc;
    }

    // send_exception
    method SendException(c: Connection, q: Request, code: Byte)
      modifies c`sent
      ensures c.sent == old(c.sent) + [Frame(q, [Flagged(q.fc), code])]
    {
      var response := new Byte[9](_ => 0);
      PutHead(response, q, 0x03, Flagged(q.fc));
      response[8] := code;
      FrameFromHead(q, Flagged(q.fc), [code]);
      assert [Flagged(q.fc)] + [code] == [Flagged(q.fc), code];
      assert response[..] == Head(q, 0x03, Flagged(q.fc)) + [code];
      c.Send(response[..]);
    }

    // The 12-byte response of both writes: address and value, or address and quantity, are echoed.
    method SendEcho(c: Connection, q: Request)
      requires |q.data| >= 4
      modifies c`sent
      ensures c.sent == old(c.sent) + [Frame(q, [q.fc] + q.data[..4])]
    {
      hide Frame, Head;
      var response := new Byte[12](_ => 0);
      PutHead(response, q, 0x06, q.fc);
      ghost var head := response[..8];
      response[8], response[9], response[10], response[11] := q.data[0], q.data[1], q.data[2], q.data[3];
      FrameFromHead(q, q.fc, q.data[..4]);
      assert response[..] == head + q.data[..4];
      c.Send(response[..]);
    }

    // handle_read_holding_registers and handle_read_input_registers
    method HandleRead(c: Connection, q: Request)
      requires regs.Valid() && (q.fc == FC_READ_HOLDING || q.fc == FC_READ_INPUT)
      modifies c`sent
      ensures c.sent == old(c.sent) + [Frame(q, PduOf(q, Serve(regs.View(), q).1))]
    {
      hide Frame, Answer, Head;
      if |q.data| < 4 {
        SendException(c, q, EX_ILLEGAL_DATA_VALUE);
        return;
      }
      var quantity := ToWord(q.data[2], q.data[3]);
      if quantity == 0 || quantity > 125 {
        SendException(c, q, EX_ILLEGAL_DATA_VALUE);
        return;
      }
      var ok, bytes := ReadIntoResponse(q);
      if !ok {
        SendException(c, q, EX_ILLEGAL_DATA_ADDRESS);
        return;
      }
      c.Send(bytes);
    }

    // The call into the register map
    method ReadRegisters(q: Request, response: array<Byte>) returns (ok: bool)
      requires regs.Valid() && (q.fc == FC_READ_HOLDING || q.fc == FC_READ_INPUT) && |q.data| >= 4
      requires response.Length == RESPONSE_BUFFER
      requires response != regs.input && response != regs.output && response != regs.config
      modifies response
      ensures ok == ReadOk(regs.View(), q)
      ensures ok ==> response[..] == old(response[..9]) + ReadData(regs.View(), q) + old(response[9 + 2 * WordAt(q.data, 2)..])
    {
      hide Answer;
      var start, quantity := ToWord(q.data[0], q.data[1]), ToWord(q.data[2], q.data[3]);
      if q.fc == FC_READ_HOLDING {
        ok := regs.ReadHolding(start, quantity, response, 9);
      } else {
        ok := regs.ReadInput(start, quantity, response, 9);
      }
    }

    // The 256-byte response of both reads: filled by the register map, and cut to its length.
    method ReadIntoResponse(q: Request) returns (ok: bool, bytes: seq<Byte>)
      requires regs.Valid() && (q.fc == FC_READ_HOLDING || q.fc == FC_READ_INPUT)
      requires |q.data| >= 4 && 0 < WordAt(q.data, 2) <= 125
      ensures ok == Serve(regs.View(), q).1.Normal?
      ensures ok ==> bytes == Frame(q, Serve(regs.View(), q).1.pdu)
    {
      hide Frame, Head, Serve, ReadOk, ReadData;
      ReadAnswer(regs.View(), q);
      var dataSize := ToWord(q.data[2], q.data[3]) * 2;
      var responseLen := 9 + dataSize;
      var response := new Byte[RESPONSE_BUFFER](_ => 0);
      PutHead(response, q, responseLen - 6, q.fc);
      response[8] := dataSize as Byte;
      ghost var head := response[..9];
      assert head == Head(q, dataSize + 3, q.fc) + [dataSize as Byte];
      ok := ReadRegisters(q, response);
      bytes := [];
      if ok {
        bytes := response[..responseLen];
        ReadFrame(q, ReadData(regs.View(), q));
      }
    }

    // handle_write_single_register
    method HandleWriteSingle(c: Connection, q: Request)
      requires regs.Valid() && q.fc == FC_WRITE_SINGLE
      modifies c`sent, regs.output, regs.config
      ensures regs.View() == Serve(old(regs.View()), q).0
      ensures c.sent == old(c.sent) + [Frame(q, PduOf(q, Serve(old(regs.View()), q).1))]
    {
      hide Frame, Put, HighByte, LowByte, ToWord;
      if |q.data| < 4 {
        SendException(c, q, EX_ILLEGAL_DATA_VALUE);
        return;
      }
      SwapWordEffect(q.data[2], q.data[3]);
      var address, value := ToWord(q.data[0], q.data[1]), ToWord(q.data[2], q.data[3]);
      assert [HighByte(value), LowByte(value)] == q.data[2..4];
      var ok := regs.WriteSingle(address, value);
      if !ok {
        SendException(c, q, EX_ILLEGAL_DATA_ADDRESS);
        return;
      }
      SendEcho(c, q);
    }

    // handle_write_multiple_registers
    method HandleWriteMultiple(c: Connection, q: Request)
      requires regs.Valid() && q.fc == FC_WRITE_MULTIPLE
      modifies c`sent, regs.output, regs.config
      ensures regs.View() == Serve(old(regs.View()), q).0
      ensures c.sent == old(c.sent) + [Frame(q, PduOf(q, Serve(old(regs.View()), q).1))]
    {
      hide Frame, Put;
      if |q.data| < 6 {
        SendException(c, q, EX_ILLEGAL_DATA_VALUE);
        return;
      }
      var start, quantity := ToWord(q.data[0], q.data[1]), ToWord(q.data[2], q.data[3]);
      var byteCount := q.data[4] as int;
      if quantity == 0 || quantity > 123 || byteCount != quantity * 2 || |q.data| < 5 + byteCount {
        SendException(c, q, EX_ILLEGAL_DATA_VALUE);
        return;
      }
      assert q.data[5..][..2 * quantity] == q.data[5..5 + 2 * quantity];
      var ok := regs.WriteMultiple(start, quantity, q.data[5..]);
      if !ok {
        SendException(c, q, EX_ILLEGAL_DATA_ADDRESS);
        return;
      }
      SendEcho(c, q);
    }

    // The switch of modbus_tcp_handle_request: exactly one reply, and the registers the request leaves.
    method Dispatch(c: Connection, q: Request)
      requires regs.Valid()
      modifies c`sent, regs.output, regs.config
      ensures c.sent == old(c.sent) + [Reply(old(regs.View()), q)]
      ensures regs.View() == Serve(old(regs.View()), q).0
    {
      if q.fc == FC_READ_HOLDING || q.fc == FC_READ_INPUT {
        HandleRead(c, q);
      } else if q.fc == FC_WRITE_SINGLE {
        HandleWriteSingle(c, q);
      } else if q.fc == FC_WRITE_MULTIPLE {
        HandleWriteMultiple(c, q);
      } else {
        SendException(c, q, EX_ILLEGAL_FUNCTION);
      }
    }

    // The receive loop of modbus_tcp_handle_request.
    static method ReceiveBody(c: Connection, length: nat) returns (whole: bool, pdu: seq<Byte>)
      modifies c`wire
      ensures Gather(old(c.wire), length) == if whole then Whole(pdu, c.wire) else Broken(c.wire)
    {
      ghost var w := c.wire;
      pdu := [];
      while |pdu| < length
        invariant |pdu| <= length
        invariant Gather(w, length) == Prepend(pdu, Gather(c.wire, length - |pdu|))
        decreases |c.wire.plan|
      {
        var got := c.Receive(length - |pdu|);
        match got {
          case Data(bytes) =>
            PrependTwice(pdu, bytes, Gather(c.wire, length - |pdu| - |bytes|));
            pdu := pdu + bytes;
          case End(why) =>
            if !why.WouldBlock? {
              return false, [];
            }
        }
      }
      assert pdu + [] == pdu;
      return true, pdu;
    }

    // The server task, for one connection: a call for whatever there is to read, until the connection is closed. The
    // replies to the requests are sent in order, and the registers are what the requests make of them.
    method ServeConnection(c: Connection)
      requires regs.Valid()
      modifies c, regs.output, regs.config
      ensures c.sent == old(c.sent) + Replies(old(regs.View()), Session(old(c.wire)))
      ensures regs.View() == Served(old(regs.View()), Session(old(c.wire)))
    {
      hide Incoming, Serve, Reply, Session, Served, Replies;
      ghost var g, w, done := regs.View(), c.wire, [];
      NothingServed(g);
      assert done + Session(w) == Session(w);
      var open := true;
      while open
        invariant c.sent == old(c.sent) + Replies(g, done) && regs.View() == Served(g, done)
        invariant Session(w) == done + if open then Session(c.wire) else []
        decreases open, |c.wire.plan|
      {
        IncomingUsesPlan(c.wire);
        SessionGoesOn(c.wire, done);
        ghost var o := Incoming(c.wire);
        open := HandleRequest(c);
        if o.Got? {
          OneMoreServed(g, done, o.request);
          done := done + [o.request];
        }
      }
      assert done + [] == done;
    }

    // modbus_tcp_handle_request
    method HandleRequest(c: Connection) returns (keepOpen: bool)
      requires regs.Valid()
      modifies c, regs.output, regs.config
      ensures match Incoming(old(c.wire))
              case NoRequest(keep, rest) =>
                keepOpen == keep && c.wire == rest && c.sent == old(c.sent) && regs.View() == old(regs.View())
              case Got(q, rest) =>
                && keepOpen && c.wire == rest
                && c.sent == old(c.sent) + [Reply(old(regs.View()), q)]
                && regs.View() == Serve(old(regs.View()), q).0
    {
      hide Serve, Reply, Gather;
      var r := c.Receive(HEADER_SIZE);
      if r.End? {
        return !r.why.Closed? && !r.why.Reset?;
      }
      var header := r.bytes;
      if |header| < HEADER_SIZE {
        return true;
      }
      if ToWord(header[2], header[3]) != 0 || ToWord(header[4], header[5]) < 2 || ToWord(header[4], header[5]) > 253 {
        return false;
      }
      ghost var w1 := c.wire;
      var whole, pdu := ReceiveBody(c, ToWord(header[4], header[5]));
      if !whole {
        return false;
      }
      GatherIgnoresSplit(w1, ToWord(header[4], header[5]));
      Dispatch(c, Request(header[0], header[1], pdu[0], pdu[1], pdu[2..]));
      return true;
    }
  }
}
