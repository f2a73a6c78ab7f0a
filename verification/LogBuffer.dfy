/**
  The circular log buffer of components/log_buffer/log_buffer.c, and the stream it stands for.
*/
module LogBuffer {

  // ---- The specification: a stream of which only the end is kept -----------

  // The last n characters of s, or all of it.
  function LastN(s: string, n: nat): (r: string)
    ensures |r| == if |s| <= n then |s| else n
  {
    if |s| <= n then s else s[|s| - n..]
  }

  function Min(a: nat, b: nat): nat {
    if a < b then a else b
  }

  lemma LastNDrops(s: string, n: nat)
    requires |s| >= n
    ensures LastN(s, n) == s[|s| - n..]
  {
  }

  lemma LastNKeeps(s: string, n: nat)
    requires |s| <= n
    ensures LastN(s, n) == s
  {
  }

  lemma DropDrop(s: string, a: nat, b: nat)
    requires a + b <= |s|
    ensures s[a..][b..] == s[a + b..]
  {
  }

  lemma DropFront(s: string, t: string, n: nat)
    requires n <= |s|
    ensures (s + t)[n..] == s[n..] + t
  {
  }

  lemma DropPast(s: string, t: string, n: nat)
    requires |s| <= n <= |s| + |t|
    ensures (s + t)[n..] == t[n - |s|..]
  {
  }

  lemma Regroup(a: string, b: string, c: string)
    ensures (a + b) + c == a + (b + c)
  {
  }

  // Keeping the last n of a stream can be done chunk by chunk.
  lemma LastNIncremental(s: string, chunk: string, n: nat)
    ensures LastN(LastN(s, n) + chunk, n) == LastN(s + chunk, n)
  {
    hide LastN;
    if |s| <= n {
      LastNKeeps(s, n);
    } else {
      var cut := |s| - n;
      LastNDrops(s, n);
      DropFront(s, chunk, cut);
      DropDrop(s + chunk, cut, |chunk|);
      LastNDrops(s[cut..] + chunk, n);
      LastNDrops(s + chunk, n);
    }
  }

  // log_buffer_vprintf formats into 512 bytes, the last of which is the terminator.
  const TEMP_BUFFER_SIZE: nat := 512

  // The part of a formatted message that reaches the ring.
  function Captured(message: string): (r: string)
    ensures |r| <= TEMP_BUFFER_SIZE - 1
  {
    if |message| < TEMP_BUFFER_SIZE then message else message[..TEMP_BUFFER_SIZE - 1]
  }

  // What reaches the ring is the beginning of the message, all of it up to 511 characters.
  lemma CapturedIsPrefix(message: string)
    ensures Captured(message) <= message
    ensures Captured(message) == message <==> |message| <= 511
    ensures |message| > 511 ==> |Captured(message)| == 511
  {
  }

  datatype Op = Log(message: string) | Clear

  // What was logged since the last clear.
  ghost function Stream(ops: seq<Op>): string
    decreases |ops|
  {
    if ops == [] then ""
    else
      var prev := Stream(ops[..|ops| - 1]);
      match ops[|ops| - 1]
      case Log(m) => prev + Captured(m)
      case Clear => ""
  }

  // What one operation does to the kept text.
  ghost function Effect(kept: string, size: nat, op: Op): string {
    match op
    case Log(m) => LastN(kept + Captured(m), size)
    case Clear => ""
  }

  ghost function Kept(size: nat, ops: seq<Op>): string
    decreases |ops|
  {
    if ops == [] then "" else Effect(Kept(size, ops[..|ops| - 1]), size, ops[|ops| - 1])
  }

  // Over any run, the kept text is the end of the whole stream.
  lemma {:induction false} KeptIsEndOfStream(size: nat, ops: seq<Op>)
    ensures Kept(size, ops) == LastN(Stream(ops), size)
    decreases |ops|
  {
    if ops != [] {
      KeptIsEndOfStream(size, ops[..|ops| - 1]);
      match ops[|ops| - 1]
      case Log(m) => LastNIncremental(Stream(ops[..|ops| - 1]), Captured(m), size);
      case Clear =>
    }
  }

  // ---- Which rings a run leaves -------------------------------------------

  const DEFAULT_BUFFER_SIZE: nat := 16 * 1024

  // The size log_buffer_init gives the ring.
  function RingSize(requested: nat): nat {
    if requested == 0 then DEFAULT_BUFFER_SIZE else requested
  }

  lemma DefaultSizeIs()
    ensures RingSize(0) == 16384
  {
  }

  // Where a write of n characters ends.
  function EndOfWrite(size: nat, pos: nat, n: nat): nat {
    if pos + n <= size then pos + n else pos + n - size
  }

  // The write position after a run.
  ghost function Position(size: nat, ops: seq<Op>): nat
    decreases |ops|
  {
    if ops == [] then 0
    else
      match ops[|ops| - 1]
      case Log(m) => EndOfWrite(size, Position(size, ops[..|ops| - 1]), |Captured(m)|)
      case Clear => 0
  }

  // A write in two parts goes once to the end of the ring, and again from its start to its end at most.
  predicate WriteFits(size: nat, pos: nat, n: nat) {
    pos + n <= 2 * size
  }

  // No copy of the run leaves the ring.
  ghost predicate StaysInside(size: nat, ops: seq<Op>)
    decreases |ops|
  {
    ops == []
    || var prev := ops[..|ops| - 1];
       && StaysInside(size, prev)
       && (ops[|ops| - 1].Log? ==> WriteFits(size, Position(size, prev), |Captured(ops[|ops| - 1].message)|))
  }

  lemma {:induction false} PositionInRing(size: nat, ops: seq<Op>)
    requires StaysInside(size, ops)
    ensures Position(size, ops) <= size
    decreases |ops|
  {
    if ops != [] {
      PositionInRing(size, ops[..|ops| - 1]);
    }
  }

  // A ring with room for one captured message is never left.
  lemma {:induction false} LargeRingsAreSafe(size: nat, ops: seq<Op>)
    requires size >= TEMP_BUFFER_SIZE - 1
    ensures StaysInside(size, ops)
    decreases |ops|
  {
    if ops != [] {
      LargeRingsAreSafe(size, ops[..|ops| - 1]);
      PositionInRing(size, ops[..|ops| - 1]);
    }
  }

  // A smaller one is left by a message that fills it and a long one.
  lemma SmallRingIsLeft(size: nat)
    requires size < TEMP_BUFFER_SIZE - 1
    ensures var fill, long := Log(seq(size, _ => 'x')), Log(seq(TEMP_BUFFER_SIZE - 1, _ => 'x'));
            !StaysInside(size, [fill, long])
  {
    var fill, long := Log(seq(size, _ => 'x')), Log(seq(TEMP_BUFFER_SIZE - 1, _ => 'x'));
    assert [fill][..0] == [] && [fill, long][..1] == [fill];
    assert Position(size, [fill]) == EndOfWrite(size, 0, size) == size;
    assert !WriteFits(size, size, |Captured(long.message)|);
  }

  // Some run leaves the ring exactly when less than one captured message was asked for, but not 0.
  lemma SomeRunLeavesIff(requested: nat)
    ensures (exists ops :: !StaysInside(RingSize(requested), ops)) <==> 0 < requested < TEMP_BUFFER_SIZE - 1
  {
    var size := RingSize(requested);
    if size < TEMP_BUFFER_SIZE - 1 {
      SmallRingIsLeft(size);
    } else {
      forall ops
        ensures StaysInside(size, ops)
      {
        LargeRingsAreSafe(size, ops);
      }
    }
  }

  // ---- The ring itself ----------------------------------------------------

  // A buffer after src was copied into it from index to on.
  function Overwritten(all: string, to: nat, src: string): (r: string)
    requires to + |src| <= |all|
    ensures |r| == |all|
  {
    all[..to] + src + all[to + |src|..]
  }

  lemma OverwrittenGrows(all: string, to: nat, src: string, i: nat)
    requires i < |src| && to + |src| <= |all|
    ensures Overwritten(all, to, src[..i])[to + i := src[i]] == Overwritten(all, to, src[..i + 1])
  {
  }

  method CopyChars(dst: array<char>, to: nat, src: seq<char>)
    requires to + |src| <= dst.Length
    modifies dst
    ensures dst[..] == Overwritten(old(dst[..]), to, src)
  {
    ghost var all := dst[..];
    assert Overwritten(all, to, src[..0]) == all;
    hide Overwritten;
    var i := 0;
    while i < |src|
      invariant 0 <= i <= |src|
      invariant dst[..] == Overwritten(all, to, src[..i])
    {
      OverwrittenGrows(all, to, src, i);
      dst[to + i] := src[i];
      i := i + 1;
    }
    assert src[..i] == src;
  }

  // Two copies one behind the other.
  lemma TwoCopies(all: string, a: string, b: string)
    requires |a| + |b| <= |all|
    ensures Overwritten(Overwritten(all, 0, a), |a|, b) == a + b + all[|a| + |b|..]
  {
  }

  // The text that a ring's characters stand for, oldest character first.
  function RingText(chars: string, pos: nat, wrapped: bool): (r: string)
    requires pos <= |chars|
    ensures |r| == if wrapped then |chars| else pos
  {
    if wrapped then chars[pos..] + chars[..pos] else chars[..pos]
  }

  lemma UnwrappedText(chars: string, pos: nat, n: nat)
    requires n <= pos <= |chars|
    ensures RingText(chars, pos, false)[..n] == chars[..n]
  {
  }

  class Ring {
    const buffer: array<char>   // s_log_buffer; its length is s_buffer_size
    var writePos: nat
    var wrapped: bool
    var totalWritten: nat       // a 32-bit size_t

    ghost predicate Valid()
      reads this
    {
      writePos <= buffer.Length
    }

    ghost function Contents(): (r: string)
      requires Valid()
      reads this, buffer
    {
      RingText(buffer[..], writePos, wrapped)
    }

    // log_buffer_init
    constructor (requested: nat)
      ensures Valid() && fresh(buffer) && buffer.Length == RingSize(requested)
      ensures Contents() == Kept(buffer.Length, []) && writePos == Position(buffer.Length, [])
    {
      buffer := new char[RingSize(requested)](_ => '\0');
      writePos, wrapped, totalWritten := 0, false, 0;
    }

    // The ring write of log_buffer_vprintf. When its second copy would leave the ring, the model stops before it.
    method Write(message: string) returns (inside: bool)
      requires Valid()
      modifies this, buffer
      ensures Valid()
      ensures inside <==> WriteFits(buffer.Length, old(writePos), |Captured(message)|)
      ensures inside ==> Contents() == Effect(old(Contents()), buffer.Length, Log(message))
      ensures inside ==> writePos == EndOfWrite(buffer.Length, old(writePos), |Captured(message)|)
      ensures inside ==> totalWritten == (old(totalWritten) + |Captured(message)|) % 0x1_0000_0000
    {
      hide LastN, Captured, RingText;
      var text := Captured(message);
      inside := WriteFits(buffer.Length, writePos, |text|);
      if !inside {
        return;
      }
      if writePos + |text| <= buffer.Length {
        WriteFitting(text);
      } else {
        WriteWrapping(text);
      }
      totalWritten := (totalWritten + |text|) % 0x1_0000_0000;
    }

    // A write behind which the ring does not end
    method WriteFitting(text: string)
      requires Valid() && writePos + |text| <= buffer.Length
      modifies `writePos, buffer
      ensures Valid() && writePos == old(writePos) + |text|
      ensures Contents() == LastN(old(Contents()) + text, buffer.Length)
    {
      hide LastN, RingText;
      FitsEffect(buffer[..], writePos, wrapped, text);
      CopyChars(buffer, writePos, text);
      writePos := writePos + |text|;
    }

    // A write over the end of the ring, in two parts
    method WriteWrapping(text: string)
      requires Valid() && buffer.Length < writePos + |text| <= 2 * buffer.Length
      modifies `writePos, `wrapped, buffer
      ensures Valid() && writePos == old(writePos) + |text| - buffer.Length
      ensures Contents() == LastN(old(Contents()) + text, buffer.Length)
    {
      hide LastN, RingText;
      WrapsEffect(buffer[..], writePos, wrapped, text);
      var firstPart := buffer.Length - writePos;
      CopyChars(buffer, writePos, text[..firstPart]);
      CopyChars(buffer, 0, text[firstPart..]);
      writePos := |text| - firstPart;
      wrapped := true;
    }

    // Two copies, the second behind the first
    static method CopyBoth(dest: array<char>, older: string, newer: string)
      requires |older| + |newer| <= dest.Length
      modifies dest
      ensures dest[..] == older + newer + old(dest[..])[|older| + |newer|..]
    {
      TwoCopies(dest[..], older, newer);
      CopyChars(dest, 0, older);
      CopyChars(dest, |older|, newer);
    }

    // log_buffer_get for a wrapped ring: from the write position to the end, then from the start
    method CopyWrapped(dest: array<char>) returns (count: nat)
      requires Valid() && wrapped && dest != buffer
      modifies dest
      ensures count == Min(|Contents()|, dest.Length)
      ensures dest[..] == Contents()[..count] + old(dest[..])[count..]
    {
      var older, newer := buffer[writePos..], buffer[..writePos];
      var firstPart := buffer.Length - writePos;
      var secondPart := writePos;
      if dest.Length >= buffer.Length {
        CopyBoth(dest, older, newer);
        assert (older + newer)[..buffer.Length] == older + newer;
        return buffer.Length;
      }
      if dest.Length <= firstPart {
        CopyChars(dest, 0, older[..dest.Length]);
        assert (older + newer)[..dest.Length] == older[..dest.Length];
        return dest.Length;
      }
      var remaining := dest.Length - firstPart;
      if remaining <= secondPart {
        CopyBoth(dest, older, newer[..remaining]);
        assert (older + newer)[..dest.Length] == older + newer[..remaining];
        return dest.Length;
      }
      // the source's last branch: a shorter destination cannot outlast both parts
      assert false;
    }

    // log_buffer_get for a ring that has not wrapped
    method CopyUnwrapped(dest: array<char>) returns (count: nat)
      requires Valid() && !wrapped && dest != buffer
      modifies dest
      ensures count == Min(|Contents()|, dest.Length)
      ensures dest[..] == Contents()[..count] + old(dest[..])[count..]
    {
      count := if writePos < dest.Length then writePos else dest.Length;
      UnwrappedText(buffer[..], writePos, count);
      CopyChars(dest, 0, buffer[..][..count]);
    }

    // The end of log_buffer_get: the terminator behind the text, or over its last character
    static method Terminate(dest: array<char>, copied: nat, ghost text: string, ghost rest: string) returns (count: nat)
      requires dest.Length > 0 && copied <= |text| && dest[..] == text[..copied] + rest
      modifies dest
      ensures count == if copied < dest.Length then copied else dest.Length - 1
      ensures dest[..] == text[..count] + "\0" + (if rest == "" then "" else rest[1..])
    {
      if copied < dest.Length {
        dest[copied] := '\0';
        return copied;
      }
      dest[dest.Length - 1] := '\0';
      return dest.Length - 1;
    }

    // log_buffer_get
    method Get(dest: array<char>) returns (count: nat)
      requires Valid() && dest != buffer
      modifies dest
      ensures dest.Length == 0 ==> count == 0
      ensures dest.Length > 0 ==>
                && count == Min(|Contents()|, dest.Length - 1)
                && dest[..] == Contents()[..count] + "\0" + old(dest[..])[count + 1..]
    {
      hide RingText;
      if dest.Length == 0 {
        return 0;
      }
      if wrapped {
        count := CopyWrapped(dest);
      } else {
        count := CopyUnwrapped(dest);
      }
      ghost var all := old(dest[..]);
      if count < dest.Length {
        DropDrop(all, count, 1);
      }
      count := Terminate(dest, count, Contents(), all[count..]);
    }

    // log_buffer_get_size
    method GetSize() returns (n: nat)
      requires Valid()
      ensures n == |Contents()|
    {
      n := if wrapped then buffer.Length else writePos;
    }

    // log_buffer_clear
    method ClearAll()
      requires Valid()
      modifies this, buffer
      ensures Valid()
      ensures Contents() == Effect(old(Contents()), buffer.Length, Clear)
      ensures writePos == 0 && totalWritten == 0
    {
      writePos, totalWritten, wrapped := 0, 0, false;
      forall i | 0 <= i < buffer.Length {
        buffer[i] := '\0';
      }
    }
  }

  // A write that fits behind the write position.
  lemma FitsEffect(before: string, pos: nat, wrapped: bool, text: string)
    requires pos + |text| <= |before|
    ensures RingText(Overwritten(before, pos, text), pos + |text|, wrapped)
            == LastN(RingText(before, pos, wrapped) + text, |before|)
  {
    var after := Overwritten(before, pos, text);
    var pos' := pos + |text|;
    assert after[..pos'] == before[..pos] + text;
    if wrapped {
      FitsWrapped(before, pos, text);
    }
  }

  lemma FitsWrapped(before: string, pos: nat, text: string)
    requires pos + |text| <= |before|
    ensures RingText(Overwritten(before, pos, text), pos + |text|, true)
            == LastN(RingText(before, pos, true) + text, |before|)
  {
    hide LastN, Overwritten;
    var older, newer := before[pos..], before[..pos];
    OverwrittenParts(before, pos, text);
    DropDrop(before, pos, |text|);
    Regroup(older, newer, text);
    DropFront(older, newer + text, |text|);
    LastNDrops(older + newer + text, |before|);
  }

  lemma OverwrittenParts(all: string, to: nat, src: string)
    requires to + |src| <= |all|
    ensures Overwritten(all, to, src)[..to + |src|] == all[..to] + src
    ensures Overwritten(all, to, src)[to + |src|..] == all[to + |src|..]
  {
  }

  // A write that runs over the end of the ring: what is left of the old text, then the new text. A text longer
  // than the ring runs over its own beginning too.
  lemma WrapsEffect(before: string, pos: nat, wrapped: bool, text: string)
    requires pos <= |before| < pos + |text| <= 2 * |before|
    ensures var first := |before| - pos;
            RingText(Overwritten(Overwritten(before, pos, text[..first]), 0, text[first..]), |text| - first, true)
            == LastN(RingText(before, pos, wrapped) + text, |before|)
  {
    hide Overwritten, RingText, LastN;
    var first := |before| - pos;
    var pos' := |text| - first;
    var a, b := text[..first], text[first..];
    OverwrittenEnd(before, pos, a);
    OverwrittenStart(before[..pos] + a, b);
    assert a + b == text;
    if pos' <= pos {
      var left := before[pos'..pos];
      DropFront(before[..pos], a, pos');
      assert before[..pos][pos'..] == left;
      Regroup(left, a, b);
      OverwrittenText(before, pos, pos', wrapped, text);
    } else {
      DropPast(before[..pos], a, pos');
      DropFront(a, b, pos' - pos);
      OverwrittenByText(before, pos, wrapped, text);
    }
  }

  // The first copy of such a write ends where the ring ends,
  lemma OverwrittenEnd(all: string, to: nat, src: string)
    requires to + |src| == |all|
    ensures Overwritten(all, to, src) == all[..to] + src
  {
  }

  // and the second one begins where it begins.
  lemma OverwrittenStart(all: string, src: string)
    requires |src| <= |all|
    ensures RingText(Overwritten(all, 0, src), |src|, true) == all[|src|..] + src
  {
    var after := Overwritten(all, 0, src);
    assert after[..|src|] == src && after[|src|..] == all[|src|..];
  }

  // What is left of the old text
  lemma OverwrittenText(before: string, pos: nat, pos': nat, wrapped: bool, text: string)
    requires pos' <= pos <= |before| && pos' + |before| == pos + |text| && pos' > 0
    ensures LastN(RingText(before, pos, wrapped) + text, |before|) == before[pos'..pos] + text
  {
    hide LastN;
    var kept := RingText(before, pos, wrapped);
    var drop := |kept| + |text| - |before|;
    assert kept[drop..] == before[pos'..pos];
    LastNDrops(kept + text, |before|);
    DropFront(kept, text, drop);
  }

  // Nothing is left of it when the text is at least as long as the ring.
  lemma OverwrittenByText(before: string, pos: nat, wrapped: bool, text: string)
    requires pos <= |before| <= |text|
    ensures LastN(RingText(before, pos, wrapped) + text, |before|) == text[|text| - |before|..]
  {
    hide LastN;
    var kept := RingText(before, pos, wrapped);
    LastNDrops(kept + text, |before|);
    DropPast(kept, text, |kept| + |text| - |before|);
  }

  // Any run of messages and clears on a fresh ring of any size leaves the end of the stream since the last clear,
  // or one of its copies leaves the ring.
  method Replay(requested: nat, ops: seq<Op>) returns (ring: Ring, inside: bool)
    ensures ring.Valid() && ring.buffer.Length == RingSize(requested)
    ensures inside <==> StaysInside(RingSize(requested), ops)
    ensures inside ==> ring.Contents() == LastN(Stream(ops), RingSize(requested))
  {
    hide LastN, WriteFits, EndOfWrite;
    ring := new Ring(requested);
    ghost var size := RingSize(requested);
    inside := true;
    for i := 0 to |ops|
      invariant ring.Valid() && ring.buffer.Length == size && fresh(ring) && fresh(ring.buffer)
      invariant inside <==> StaysInside(size, ops[..i])
      invariant inside ==> ring.Contents() == Kept(size, ops[..i]) && ring.writePos == Position(size, ops[..i])
    {
      assert ops[..i + 1][..i] == ops[..i];
      if inside {
        match ops[i]
        case Log(m) => inside := ring.Write(m);
        case Clear => ring.ClearAll();
      }
    }
    assert ops[..|ops|] == ops;
    KeptIsEndOfStream(size, ops);
  }
}
