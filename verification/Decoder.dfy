/** The trace decoder: packet by packet over the buffer, updating the tracer as it goes. */
module Decoder {
  import opened Bytes
  import opened Words
  import opened Atoms
  import opened TraceEvents
  import opened Tracer
  import opened Packets

  // ---------- fields ----------

  /** Reads up to max bytes, stopping after the first one that announces no other. */
  method ReadField(buf: seq<byte>, pos: nat, max: nat) returns (i: nat, index: nat)
    ensures i <= max && index == pos + if i < max then i + 1 else max
    ensures Field(buf, pos, max) == if i < max then Some(i + 1) else None
  {
    i, index := 0, pos;
    while i < max
      invariant i <= max && index == pos + i
      invariant Field(buf, pos, max)
             == match Field(buf, pos + i, max - i) { case None => None case Some(n) => Some(n + i) }
    {
      var data := At(buf, index);
      index := index + 1;
      if data < 128 { return; }
      i := i + 1;
    }
  }

  /** An optional section; None after a failure. */
  method ReadSection(buf: seq<byte>, at: Option<nat>, present: bool, max: nat) returns (end: Option<nat>)
    ensures end == Section(buf, at, present, max)
  {
    end := at;
    if present && at.Some? {
      var i, index := ReadField(buf, at.value, max);
      end := if i >= max then None else Some(index);
    }
  }

  lemma OneByteField(buf: seq<byte>, pos: nat)
    ensures Field(buf, pos, 1) == if At(buf, pos) < 128 then Some(1) else None
    ensures Field(buf, pos, 4) == Some(1) <==> At(buf, pos) < 128
  {}

  /** A section of a single byte: a longer one is read to its end and then refused. */
  method ReadSingle(buf: seq<byte>, at: Option<nat>, present: bool) returns (end: Option<nat>)
    ensures end == Section(buf, at, present, 1)
  {
    end := at;
    if present && at.Some? {
      var i, index := ReadField(buf, at.value, 4);
      OneByteField(buf, at.value);
      end := if i >= 1 then None else Some(index);
    }
  }

  method DecodeTraceInfo(t: Tracer, buf: seq<byte>, pos: nat) returns (ret: int)
    modifies t`registers
    ensures var end := TraceInfoEnd(buf, pos);
            && ret == (match end { case None => -1 case Some(e) => e - pos })
            && t.registers == if end.Some? && (t.state == InSync || t.state == Decoding) then CLEARED
                              else old(t.registers)
  {
    hide Field, Section, At;
    var plctl := At(buf, pos + 1);
    var end := ReadSingle(buf, Some(pos + 1), true);
    end := ReadSingle(buf, end, plctl % 2 == 1);
    end := ReadSection(buf, end, plctl / 2 % 2 == 1, 4);
    end := ReadSection(buf, end, plctl / 4 % 2 == 1, 4);
    end := ReadSection(buf, end, plctl / 8 % 2 == 1, 2);
    if end == None { return -1; }
    if t.state == InSync || t.state == Decoding { t.registers := CLEARED; }
    ret := end.value - pos;
  }

  method DecodeTimestamp(buf: seq<byte>, pos: nat) returns (ret: int)
    ensures ret == StampLength(buf, pos)
  {
    var index, ended := 1, false;
    while index < 10 && !ended
      invariant 1 <= index <= 10
      invariant StampEnd(buf, pos, 1) == if ended then index else StampEnd(buf, pos, index)
      decreases 10 - index, !ended
    {
      var data := At(buf, pos + index);
      index := index + 1;
      ended := index != 9 && data < 128;
    }
    if At(buf, pos) % 2 == 1 {
      var i, at := ReadField(buf, pos + index, 3);
      index := at - pos;
    }
    ret := index;
  }

  method DecodeResults(buf: seq<byte>, pos: nat) returns (ret: int)
    ensures ret == match Payloads(buf, pos + 1, if At(buf, pos) / 4 % 2 == 1 then 1 else 2)
                   { case None => -1 case Some(end) => end - pos }
  {
    hide Field, At;
    var payloads := if At(buf, pos) / 4 % 2 == 1 then 1 else 2;
    var index, payload := pos + 1, 0;
    while payload < payloads
      invariant payload <= payloads && index >= pos
      invariant Payloads(buf, pos + 1, payloads) == Payloads(buf, index, payloads - payload)
    {
      var i, next := ReadField(buf, index + 1, 5);
      if i >= 5 { return -1; }
      index := next;
      payload := payload + 1;
    }
    ret := index - pos;
  }

  method DecodeContextInfo(buf: seq<byte>, at: nat) returns (len: nat)
    ensures len == ContextLength(At(buf, at))
  {
    var info := At(buf, at);
    len := 1;
    if info / 64 % 2 == 1 { len := len + 1; }
    if info / 128 == 1 { len := len + 4; }
  }

  /** Four bytes at most, of which only the number matters here. */
  method DecodeField(buf: seq<byte>, pos: nat) returns (ret: int)
    ensures ret == match Field(buf, pos + 1, 4) { case None => -1 case Some(n) => n + 1 }
  {
    hide Field;
    var i, index := ReadField(buf, pos + 1, 4);
    ret := if i >= 4 then -1 else index - pos;
  }

  method DecodeContext(buf: seq<byte>, pos: nat) returns (ret: int)
    ensures ret == if At(buf, pos) % 2 == 1 then 1 + ContextLength(At(buf, pos + 1)) else 1
  {
    ret := 1;
    if At(buf, pos) % 2 == 1 {
      var n := DecodeContextInfo(buf, pos + 1);
      ret := ret + n;
    }
  }

  /** Packets that change nothing here, by their place in the packet list. */
  method DecodeQuiet(buf: seq<byte>, pos: nat, ghost r: Registers) returns (ret: int)
    requires At(buf, pos) >= 2
    ensures QuietPacket(buf, pos, r) == Silent(ret, r)
  {
    hide StampLength, Payloads, Field, ContextLength;
    match PacketIndex(At(buf, pos)) {
      case 3 => // time stamp
        ret := DecodeTimestamp(buf, pos);
      case 5 => // cycle count, format 1
        ret := DecodeField(buf, pos);
      case 6 => // cycle count, format 2
        ret := 2;
      case 14 => // conditional instruction, format 1
        ret := DecodeField(buf, pos);
      case 16 => // conditional instruction, format 3
        ret := 2;
      case 18 => // conditional result, format 1
        ret := DecodeResults(buf, pos);
      case 20 => // conditional result, format 3
        ret := 2;
      case 30 => // context
        ret := DecodeContext(buf, pos);
      case _ =>
        ret := 1;
    }
  }

  // ---------- extension, addresses, exceptions ----------

  method IsAlignment(buf: seq<byte>, pos: nat) returns (b: bool)
    ensures b == Aligns(buf, pos)
  {
    var cnt, index := 0, 1;
    while cnt < 11 && index < |buf|
      invariant 0 <= cnt <= 11 && index == cnt + 1
      invariant forall k | pos < k < pos + index && k <= pos + 10 :: At(buf, k) == 0
      invariant cnt == 11 ==> At(buf, pos + 11) == 0x80
      invariant cnt == 11 ==> |buf| >= 12
    {
      if cnt == 10 && At(buf, pos + index) != 0x80 { break; }
      if cnt != 10 && At(buf, pos + index) != 0 { break; }
      cnt, index := cnt + 1, index + 1;
    }
    b := cnt == 11;
  }

  method DecodeExtension(t: Tracer, buf: seq<byte>, pos: nat) returns (ret: int)
    requires t.Valid()
    modifies t, t.traceBits
    ensures t.Valid() && t.SameRun()
    ensures var p := ExtensionPacket(buf, pos, old(t.registers));
            ret == p.len && t.events == old(t.events) + p.events && t.registers == p.registers
  {
    match At(buf, pos + 1) {
      case 0 =>
        var b := IsAlignment(buf, pos);
        ret := if b then 12 else -1;
      case 3 =>
        ret := 2;
      case 5 =>
        ret := 2;
        t.TracerOverflow();
      case _ =>
        ret := -1;
    }
  }

  method ShortAddress(buf: seq<byte>, pos: nat, base: u64) returns (address: u64, len: nat)
    ensures ShortTarget(buf, pos, base) == Target(address, len)
  {
    var b: int := At(buf, pos + 1);
    len := 2;
    StaysBelow(base, 0x200, M64 / 0x200, b % 128 * 4);
    StaysBelow(base, 0x100, M64 / 0x100, b % 128 * 2);
    StaysBelow(base, 0x2_0000, M64 / 0x2_0000, At(buf, pos + 2) * 0x200 + b % 128 * 4);
    if At(buf, pos) % 2 == 1 {
      address := base / 0x200 * 0x200 + b % 128 * 4;
      if b >= 128 {
        HighBits(base, b % 128 * 4, address);
        address := address / 0x2_0000 * 0x2_0000 + address % 0x200 + At(buf, pos + 2) * 0x200;
        len := 3;
      }
    } else {
      address := base / 0x100 * 0x100 + b % 128 * 2;
      if b >= 128 {
        address := 0;
        len := 3;
      }
    }
  }

  lemma HighBits(base: nat, low: nat, address: nat)
    requires low < 0x200 && address == base / 0x200 * 0x200 + low
    ensures address / 0x2_0000 == base / 0x2_0000 && address % 0x200 == low
  {
    assert address / 0x200 == base / 0x200;
    TwoDivisions(address);
    TwoDivisions(base);
  }

  lemma TwoDivisions(x: nat)
    ensures x / 0x2_0000 == x / 0x200 / 0x100
  {}

  /** The low four bytes, the last two of which carry eight bits each. */
  method ReadLow(buf: seq<byte>, at: nat, is1: bool) returns (address: nat, index: nat)
    ensures address == LowWord(buf, at, is1) < M32 && index == at + 4
  {
    hide At;
    var b0: int, b1: int := At(buf, at), At(buf, at + 1);
    index := at + 2;
    if is1 {
      address := b0 % 128 * 2;
      address := address + b1 * 0x100;
    } else {
      address := b0 % 128 * 4;
      address := address + b1 % 128 * 0x200;
    }
    address := address + At(buf, index) * 0x1_0000;
    index := index + 1;
    address := address + At(buf, index) * 0x100_0000;
    index := index + 1;
  }

  /** Four bytes more, eight bits each, on top of an address of 32 bits. */
  method ReadHigh(buf: seq<byte>, at: nat, low: nat) returns (address: nat, index: nat)
    requires low < M32
    ensures address == HighWord(buf, at) * M32 + low < M64 && index == at + 4
  {
    hide At;
    address, index := low, at;
    address := address + At(buf, index) * 0x1_0000_0000;
    index := index + 1;
    address := address + At(buf, index) * 0x100_0000_0000;
    index := index + 1;
    address := address + At(buf, index) * 0x1_0000_0000_0000;
    index := index + 1;
    address := address + At(buf, index) * 0x100_0000_0000_0000;
    index := index + 1;
  }

  method LongAddress(buf: seq<byte>, pos: nat, base: u64, is1: bool, wide: bool) returns (address: u64, len: nat)
    ensures LongTarget(buf, pos, base, is1, wide) == Target(address, len)
  {
    hide At, LowWord, HighWord;
    var low, index := ReadLow(buf, pos + 1, is1);
    if wide {
      address, index := ReadHigh(buf, index, low);
    } else {
      StaysBelow(base, M32, M32, low);
      address := base / M32 * M32 + low;
    }
    len := index - pos;
  }

  method Jumps(t: Tracer, address: u64)
    requires t.Valid()
    modifies t, t.traceBits
    ensures t.Valid() && t.SameRun() && t.registers == Shifted(old(t.registers), address)
    ensures t.events == old(t.events) + [Address(address)]
  {
    t.registers := Registers(address, t.registers.a0, t.registers.a1);
    t.TracerAddress(address);
  }

  method DecodeAddress(t: Tracer, buf: seq<byte>, pos: nat) returns (ret: int)
    requires t.Valid()
    modifies t, t.traceBits
    ensures t.Valid() && t.SameRun()
    ensures var p := AddressPacket(buf, pos, old(t.registers));
            ret == p.len && t.events == old(t.events) + p.events && t.registers == p.registers
  {
    hide ShortTarget, LongTarget, ContextLength, LowWord, HighWord, Walked, Recorded, Cells;
    var c := At(buf, pos);
    var address: u64, len: nat;
    if c == 0x95 || c == 0x96 {
      address, len := ShortAddress(buf, pos, t.registers.a0);
    } else if c == 0x9a || c == 0x9b || c == 0x9d || c == 0x9e {
      address, len := LongAddress(buf, pos, t.registers.a0, c == 0x9b || c == 0x9e, c >= 0x9d);
    } else if c == 0x82 || c == 0x83 || c == 0x85 || c == 0x86 {
      address, len := LongAddress(buf, pos, t.registers.a0, c == 0x83 || c == 0x86, c >= 0x85);
      var n := DecodeContextInfo(buf, pos + len);
      len := len + n;
    } else if 0x90 <= c <= 0x92 {
      address := if c == 0x90 then t.registers.a0 else if c == 0x91 then t.registers.a1 else t.registers.a2;
      len := 1;
    } else {
      t.Reject();
      return 1;
    }
    Jumps(t, address);
    ret := len;
  }

  method DecodeException(t: Tracer, buf: seq<byte>, pos: nat) returns (ret: int)
    requires t.Valid() && t.state == Decoding && At(buf, pos) == 6
    modifies t, t.traceBits
    ensures t.Valid() && t.SameRun()
    ensures var p := PacketAt(buf, pos, old(t.registers));
            ret == p.len && t.events == old(t.events) + p.events && t.registers == p.registers
    decreases if pos < |buf| then |buf| - pos else 0, 0
  {
    hide PacketAt, PacketIndex, At, Walked, Recorded, Cells;
    ExceptionAt(buf, pos, t.registers);
    var index := 1;
    var data := At(buf, pos + index);
    index := index + 1;
    if data >= 128 { index := index + 1; }
    t.EnterException();
    var ee := data / 64 % 2 * 2 + data % 2;
    if ee != 1 && ee != 2 { return -1; }
    if ee == 2 {
      var len := DecodePacket(t, buf, pos + index);
      if len <= 0 { return -1; }
      index := index + len;
    }
    ret := index;
  }

  /** Decodes one packet that is not an atom packet on the main path. */
  method DecodePacket(t: Tracer, buf: seq<byte>, pos: nat) returns (ret: int)
    requires t.Valid() && t.state == Decoding
    modifies t, t.traceBits
    ensures t.Valid() && t.SameRun()
    ensures var p := PacketAt(buf, pos, old(t.registers));
            ret == p.len && t.events == old(t.events) + p.events && t.registers == p.registers
    decreases if pos < |buf| then |buf| - pos else 0, 1
  {
    hide ExtensionPacket, AddressPacket, QuietPacket, TraceInfoEnd, Walked, Recorded, Cells, Fold;
    var c := At(buf, pos);
    var index := PacketIndex(c);
    if index == 0 {
      ret := DecodeExtension(t, buf, pos);
    } else if index == 1 {
      ret := DecodeTraceInfo(t, buf, pos);
    } else if c == 6 {
      ret := DecodeException(t, buf, pos);
    } else if index == -1 {
      ret := -1;
    } else if IsUnsupported(index) {
      t.Reject();
      ret := 1;
    } else if IsAddress(index) {
      ret := DecodeAddress(t, buf, pos);
    } else {
      ret := DecodeQuiet(buf, pos, t.registers);
    }
  }

  // ---------- the stream ----------

  lemma ExtensionIgnoresRegisters(buf: seq<byte>, pos: nat, r: Registers)
    ensures var p, q := ExtensionPacket(buf, pos, r), ExtensionPacket(buf, pos, CLEARED);
            p.len == q.len && p.events == q.events && p.registers == r
  {}

  /** Finds the first alignment packet with a trace info packet behind it. */
  method Synchronize(t: Tracer, buf: seq<byte>) returns (at: int)
    requires t.Valid() && t.state == Syncing
    modifies t, t.traceBits
    ensures t.Valid() && t.start == old(t.start)
    ensures t.events == old(t.events) + SyncEvents(buf, 0)
    ensures at == match SyncPoint(buf, 0) { case None => -1 case Some(i) => i }
    ensures at >= 0 ==> t.state == InSync && t.registers == CLEARED
  {
    hide ExtensionPacket, TraceInfoEnd, Walked, Recorded, Cells, SyncsAt;
    var i := 0;
    while i < |buf|
      invariant 0 <= i <= |buf|
      invariant t.Valid() && t.start == old(t.start) && t.state == Syncing
      invariant old(t.events) + SyncEvents(buf, 0) == t.events + SyncEvents(buf, i)
      invariant SyncPoint(buf, 0) == SyncPoint(buf, i)
    {
      var found := TrySync(t, buf, i);
      if found {
        t.state := InSync;
        t.registers := CLEARED;
        return i;
      }
      i := i + 1;
    }
    at := -1;
  }

  method TrySync(t: Tracer, buf: seq<byte>, i: nat) returns (found: bool)
    requires t.Valid() && t.state == Syncing && i < |buf|
    modifies t, t.traceBits
    ensures t.Valid() && t.SameRun()
    ensures found == SyncsAt(buf, i)
    ensures t.events + (if found then [] else SyncEvents(buf, i + 1)) == old(t.events) + SyncEvents(buf, i)
  {
    hide ExtensionPacket, TraceInfoEnd, Walked, Recorded, Cells, SyncEvents, At, Hash, EndsTaken;
    found := false;
    SyncStep(buf, i);
    if buf[i] == 0 {
      ExtensionIgnoresRegisters(buf, i, t.registers);
      var p := DecodeExtension(t, buf, i);
      if p == 12 && At(buf, i + 12) == 1 {
        p := DecodeTraceInfo(t, buf, i + 12);
        found := p > 0;
      }
    }
  }

  lemma SyncStep(buf: seq<byte>, i: nat)
    requires i < |buf|
    ensures At(buf, i) == buf[i]
    ensures SyncEvents(buf, i) ==
      if SyncsAt(buf, i) then []
      else (if buf[i] == 0 then ExtensionPacket(buf, i, CLEARED).events else []) + SyncEvents(buf, i + 1)
    ensures ExtensionPacket(buf, i, CLEARED).len == 12 ==> ExtensionPacket(buf, i, CLEARED).events == []
  {}

  datatype Outcome = Finished | Failed | NotCovered

  /** What is still to come from cur on. */
  ghost predicate Remaining(t: Tracer, buf: seq<byte>, cur: nat)
    reads t
  {
    if Stops(t.events) then t.events == Events(buf)
    else Events(buf) == t.events + EventsFrom(buf, cur, t.registers)
  }

  /** What one packet leaves to be done. */
  lemma PacketDone(es: seq<Event>, buf: seq<byte>, cur: nat, r: Registers)
    requires cur < |buf| && PacketIndex(buf[cur]) != -1 && !Stops(es)
    requires Events(buf) == es + EventsFrom(buf, cur, r)
    ensures var c := buf[cur];
            var p := if IsAtomHeader(c) then Packet(1, [Branches(AtomsOf(c))], r) else PacketAt(buf, cur, r);
            Events(buf) == es + p.events
              + if Stops(es + p.events) then [] else EventsFrom(buf, cur + Advance(p.len), p.registers)
  {
    hide PacketAt, AtomsOf, Events, EventsFrom, PacketIndex, Stops;
    var c := buf[cur];
    var p := if IsAtomHeader(c) then Packet(1, [Branches(AtomsOf(c))], r) else PacketAt(buf, cur, r);
    NextEvents(buf, cur, r);
    StopsLater(es, p.events);
    var rest := if Stops(p.events) then [] else EventsFrom(buf, cur + Advance(p.len), p.registers);
    assert es + (p.events + rest) == es + p.events + rest;
  }

  lemma StopsLater(es: seq<Event>, more: seq<Event>)
    requires !Stops(es)
    ensures Stops(es + more) == Stops(more)
  {}

  /** One turn of the decoding loop. */
  method DecodeNext(t: Tracer, buf: seq<byte>, cur: nat) returns (next: nat)
    requires t.Valid() && t.state == Decoding && cur < |buf|
    requires !Stops(t.events) && Remaining(t, buf, cur) && PacketIndex(buf[cur]) != -1
    modifies t, t.traceBits
    ensures t.Valid() && t.SameRun() && next > cur && Remaining(t, buf, next)
  {
    hide PacketAt, AtomsOf, Walked, Recorded, Cells, Events, EventsFrom, PacketIndex, Stops;
    var c := buf[cur];
    var i := PacketIndex(c);
    TableIsFirstMatch(c);
    PacketDone(t.events, buf, cur, t.registers);
    if i >= 35 && i <= 54 {
      t.AtomPacket(c);
      return cur + 1;
    }
    var ret := DecodePacket(t, buf, cur);
    next := if ret <= 0 then cur + 1 else cur + ret;
  }

  lemma SkipsUnknown(t: Tracer, buf: seq<byte>, cur: nat)
    requires Remaining(t, buf, cur)
    ensures cur < |buf| && PacketIndex(buf[cur]) == -1 ==> Remaining(t, buf, cur + 1)
    ensures cur >= |buf| ==> t.events == Events(buf)
  {}

  /** The decoding loop. */
  method DecodeFrom(t: Tracer, buf: seq<byte>, at: nat) returns (r: Outcome)
    requires t.Valid() && t.state == Decoding
    requires Unsupported !in t.events && Remaining(t, buf, at)
    modifies t, t.traceBits
    ensures t.Valid() && t.SameRun() && t.events == Events(buf)
    ensures r == if Unsupported in t.events then NotCovered else Finished
  {
    hide PacketAt, AtomsOf, EventsFrom, Walked, Recorded, Cells, PacketIndex, Events;
    var cur := at;
    while cur < |buf|
      invariant t.Valid() && t.SameRun() && t.state == Decoding
      invariant Unsupported !in t.events
      invariant Remaining(t, buf, cur)
      decreases |buf| - cur
    {
      if PacketIndex(buf[cur]) == -1 {
        SkipsUnknown(t, buf, cur);
        cur := cur + 1;
        continue;
      }
      if t.overflowNums > 0 { return Finished; }
      cur := DecodeNext(t, buf, cur);
      if t.unsupported { return NotCovered; }
    }
    SkipsUnknown(t, buf, cur);
    r := Finished;
  }

  lemma Synced(buf: seq<byte>)
    ensures SyncPoint(buf, 0) == None ==> Events(buf) == SyncEvents(buf, 0)
    ensures SyncPoint(buf, 0).Some? ==>
      Events(buf) == SyncEvents(buf, 0)
        + if Overflow in SyncEvents(buf, 0) then [] else EventsFrom(buf, SyncPoint(buf, 0).value, CLEARED)
    ensures Unsupported !in SyncEvents(buf, 0)
  {
    SyncOnlyOverflows(buf, 0);
  }

  /**
    Decodes a whole trace into the coverage map: the events are those of the
    trace, and the map is the one before plus the histogram of the cells of
    their edges.
   */
  method DecodeStream(t: Tracer, buf: seq<byte>) returns (r: Outcome)
    requires t.Valid() && t.events == [] && t.registers == CLEARED
    modifies t, t.traceBits
    ensures t.Valid() && t.start == old(t.start)
    ensures t.events == if old(t.state) == Reading then Events(buf) else []
    ensures t.traceBits[..] == Recorded(t.start, Cells(t.program, Walked(t.program, START, t.events).edges))
    ensures r == if old(t.state) != Reading || SyncPoint(buf, 0) == None then Failed
                 else if Unsupported in t.events then NotCovered else Finished
  {
    hide EventsFrom, Walked, Recorded, Cells, SyncEvents, SyncPoint, Events;
    if t.state != Reading { return Failed; }
    t.state := Syncing;
    var at := Synchronize(t, buf);
    Synced(buf);
    if at < 0 { return Failed; }
    t.state := Decoding;
    r := DecodeFrom(t, buf, at);
  }
}
