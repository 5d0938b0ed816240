/**
  The packets of an ETMv4 trace (Arm IHI 0064, chapter 6) as the decoder reads
  them: which decoder a header selects, how many bytes a packet takes and what
  it reports. Reading past the end of the buffer gives zeros.
 */
module Packets {
  import opened Bytes
  import opened Words
  import opened Atoms
  import opened TraceEvents
  import opened Tracer

  function At(buf: seq<byte>, i: nat): byte { if i < |buf| then buf[i] else 0 }

  // ---------- headers ----------

  /** The decoder of each header, as the lookup table has it; -1 for none. */
  function PacketIndex(c: byte): int {
    if c <= 1 then c
    else if c <= 3 then 3
    else if c == 4 then 2
    else if c == 5 then -1
    else if c <= 7 then 4
    else if c <= 11 then -1
    else if c <= 13 then 6
    else if c <= 15 then 5
    else if c <= 31 then 7
    else if c <= 47 then 8
    else if c <= 51 then 13
    else if c <= 55 then 11
    else if c <= 63 then 12
    else if c <= 67 then 15
    else if c <= 71 then 21
    else if c <= 79 then 19
    else if c <= 95 then 20
    else if c <= 103 then -1
    else if c <= 107 then 18
    else if c == 108 then 14
    else if c == 109 then 16
    else if c <= 111 then 18
    else if c <= 127 then 22
    else if c <= 129 then 30
    else if c <= 131 then c - 99
    else if c == 132 then -1
    else if c <= 134 then c - 100
    else if c <= 143 then -1
    else if c <= 147 then 29
    else if c == 148 then -1
    else if c <= 150 then c - 126
    else if c <= 153 then -1
    else if c <= 155 then c - 129
    else if c == 156 then -1
    else if c <= 158 then c - 130
    else if c == 159 then -1
    else if c <= 175 then 55
    else if c <= 191 then -1
    else if c <= 207 then 53
    else if c <= 212 then c - 165
    else if c <= 215 then c - 173
    else if c <= 219 then 36
    else if c <= 223 then 38
    else if c <= 239 then 54
    else if c <= 244 then c - 192
    else if c == 245 then 39
    else if c <= 247 then 35
    else 37
  }

  /** (c & mask) == val, where the mask clears the lowest bits only: c is one of `low` headers from val on. */
  predicate Matches(c: byte, low: nat, val: nat) {
    val <= c < val + low
  }

  /** The first entry of the packet list whose mask and value fit; -1 for none. */
  function FirstMatch(c: byte): int {
    if Matches(c, 1, 0x00) then 0
    else if Matches(c, 1, 0x01) then 1
    else if Matches(c, 1, 0x04) then 2
    else if Matches(c, 2, 0x02) then 3
    else if Matches(c, 2, 0x06) then 4
    else if Matches(c, 2, 0x0e) then 5
    else if Matches(c, 2, 0x0c) then 6
    else if Matches(c, 16, 0x10) then 7
    else if Matches(c, 16, 0x20) then 8
    else if Matches(c, 1, 0x2d) then 9
    else if Matches(c, 2, 0x2e) then 10
    else if Matches(c, 4, 0x34) then 11
    else if Matches(c, 8, 0x38) then 12
    else if Matches(c, 4, 0x30) then 13
    else if Matches(c, 1, 0x6c) then 14
    else if Matches(c, 4, 0x40) then 15
    else if Matches(c, 1, 0x6d) then 16
    else if Matches(c, 1, 0x43) then 17
    else if Matches(c, 8, 0x68) then 18
    else if Matches(c, 8, 0x48) then 19
    else if Matches(c, 16, 0x50) then 20
    else if Matches(c, 4, 0x44) then 21
    else if Matches(c, 16, 0x70) then 22
    else if Matches(c, 1, 0x95) then 23
    else if Matches(c, 1, 0x96) then 24
    else if Matches(c, 1, 0x9a) then 25
    else if Matches(c, 1, 0x9b) then 26
    else if Matches(c, 1, 0x9d) then 27
    else if Matches(c, 1, 0x9e) then 28
    else if Matches(c, 4, 0x90) then 29
    else if Matches(c, 2, 0x80) then 30
    else if Matches(c, 1, 0x82) then 31
    else if Matches(c, 1, 0x83) then 32
    else if Matches(c, 1, 0x85) then 33
    else if Matches(c, 1, 0x86) then 34
    else if Matches(c, 2, 0xf6) then 35
    else if Matches(c, 4, 0xd8) then 36
    else if Matches(c, 8, 0xf8) then 37
    else if Matches(c, 4, 0xdc) then 38
    else if Matches(c, 1, 0xf5) then 39
    else if Matches(c, 1, 0xd5) then 40
    else if Matches(c, 1, 0xd6) then 41
    else if Matches(c, 1, 0xd7) then 42
    else if Matches(c, 1, 0xd0) then 43
    else if Matches(c, 1, 0xd1) then 44
    else if Matches(c, 1, 0xd2) then 45
    else if Matches(c, 1, 0xd3) then 46
    else if Matches(c, 1, 0xd4) then 47
    else if Matches(c, 1, 0xf0) then 48
    else if Matches(c, 1, 0xf1) then 49
    else if Matches(c, 1, 0xf2) then 50
    else if Matches(c, 1, 0xf3) then 51
    else if Matches(c, 1, 0xf4) then 52
    else if Matches(c, 16, 0xc0) then 53
    else if Matches(c, 16, 0xe0) then 54
    else if Matches(c, 16, 0xa0) then 55
    else -1
  }

  /** The lookup table and the search through the packet list always agree. */
  lemma TableIsFirstMatch(c: byte)
    ensures PacketIndex(c) == FirstMatch(c)
    ensures 35 <= PacketIndex(c) <= 54 <==> IsAtomHeader(c)
  {}

  // ---------- the parts of a packet ----------

  /** The bytes of a field: the top bit of a byte says that another one follows. None if there are more than max. */
  function Field(buf: seq<byte>, pos: nat, max: nat): (n: Option<nat>)
    ensures n.Some? ==> 1 <= n.value <= max
    decreases max
  {
    if max == 0 then None
    else if At(buf, pos) < 128 then Some(1)
    else match Field(buf, pos + 1, max - 1)
      case None => None
      case Some(n) => Some(n + 1)
  }

  /** Where an optional section ends. */
  function Section(buf: seq<byte>, at: Option<nat>, present: bool, max: nat): (end: Option<nat>)
    ensures end.Some? ==> at.Some? && end.value >= at.value
  {
    if at.None? || !present then at
    else match Field(buf, at.value, max)
      case None => None
      case Some(n) => Some(at.value + n)
  }

  /** Where a trace info packet ends. */
  function TraceInfoEnd(buf: seq<byte>, pos: nat): (end: Option<nat>)
    ensures end.Some? ==> end.value > pos
  {
    var plctl := At(buf, pos + 1);
    var info := Section(buf, Section(buf, Some(pos + 1), true, 1), plctl % 2 == 1, 1);
    var key := Section(buf, info, plctl / 2 % 2 == 1, 4);
    var spec := Section(buf, key, plctl / 4 % 2 == 1, 4);
    Section(buf, spec, plctl / 8 % 2 == 1, 2)
  }

  /** The eleven bytes after the header of an alignment packet. */
  predicate Aligns(buf: seq<byte>, pos: nat) {
    && |buf| >= 12
    && (forall k | pos < k <= pos + 10 :: At(buf, k) == 0)
    && At(buf, pos + 11) == 0x80
  }

  /** Where the time stamp of a packet ends; its eighth byte never ends it, its ninth always does. */
  function StampEnd(buf: seq<byte>, pos: nat, index: nat): (end: nat)
    requires index <= 10
    ensures index <= end <= 10
    decreases 10 - index
  {
    if index == 10 then 10
    else if index != 8 && At(buf, pos + index) < 128 then index + 1
    else StampEnd(buf, pos, index + 1)
  }

  /** A field that may also end after its last byte. */
  function LaxField(buf: seq<byte>, pos: nat, max: nat): nat {
    match Field(buf, pos, max)
    case None => max
    case Some(n) => n
  }

  function StampLength(buf: seq<byte>, pos: nat): nat {
    var end := StampEnd(buf, pos, 1);
    end + if At(buf, pos) % 2 == 1 then LaxField(buf, pos + end, 3) else 0
  }

  /** Where the payloads of a conditional result packet of format 1 end. */
  function Payloads(buf: seq<byte>, at: nat, n: nat): (end: Option<nat>)
    ensures end.Some? ==> end.value >= at
    decreases n
  {
    if n == 0 then Some(at)
    else match Field(buf, at + 1, 5)
      case None => None
      case Some(k) => Payloads(buf, at + 1 + k, n - 1)
  }

  /** The information byte of a context and what it announces. */
  function ContextLength(info: byte): nat {
    1 + (if info / 64 % 2 == 1 then 1 else 0) + (if info / 128 == 1 then 4 else 0)
  }

  // ---------- addresses ----------

  /** An address and the bytes it takes. */
  datatype Target = Target(address: u64, len: nat)

  /**
    Instruction set 0 keeps bits 9 and up, or 17 and up when a second byte
    follows. In instruction set 1 a second byte leaves nothing of the address.
   */
  function ShortTarget(buf: seq<byte>, pos: nat, base: u64): Target {
    var b1: int, b2: int := At(buf, pos + 1), At(buf, pos + 2);
    if At(buf, pos) % 2 == 1 then
      if b1 < 128 then
        StaysBelow(base, 0x200, M64 / 0x200, b1 * 4);
        Target(base / 0x200 * 0x200 + b1 * 4, 2)
      else
        StaysBelow(base, 0x2_0000, M64 / 0x2_0000, b2 * 0x200 + b1 % 128 * 4);
        Target(base / 0x2_0000 * 0x2_0000 + b2 * 0x200 + b1 % 128 * 4, 3)
    else
      if b1 < 128 then
        StaysBelow(base, 0x100, M64 / 0x100, b1 * 2);
        Target(base / 0x100 * 0x100 + b1 * 2, 2)
      else Target(0, 3)
  }

  /** New low bits keep an address in its range. */
  lemma StaysBelow(base: nat, m: nat, n: nat, low: nat)
    requires base < n * m && low < m
    ensures base / m * m + low < n * m
  {
    var q := base / m;
    assert q * m <= base;
    if q >= n { MoreIsMore(n, q, m); }
    MoreIsMore(q + 1, n, m);
  }

  lemma MoreIsMore(a: nat, b: nat, m: nat)
    ensures a <= b ==> a * m <= b * m
  {}

  /** Four bytes of an address, in instruction set 0 or 1. */
  function LowWord(buf: seq<byte>, pos: nat, is1: bool): (w: nat)
    ensures w < M32
  {
    var b1, b2, b3, b4 := At(buf, pos), At(buf, pos + 1), At(buf, pos + 2), At(buf, pos + 3);
    (if is1 then b1 % 128 * 2 + b2 * 0x100 else b1 % 128 * 4 + b2 % 128 * 0x200) + b3 * 0x1_0000 + b4 * 0x100_0000
  }

  function HighWord(buf: seq<byte>, pos: nat): (w: nat)
    ensures w < M32
  {
    At(buf, pos) + At(buf, pos + 1) * 0x100 + At(buf, pos + 2) * 0x1_0000 + At(buf, pos + 3) * 0x100_0000
  }

  /** A four-byte address keeps the upper half of the one before, an eight-byte address is complete. */
  function LongTarget(buf: seq<byte>, pos: nat, base: u64, is1: bool, wide: bool): Target {
    var low := LowWord(buf, pos + 1, is1);
    if wide then Target(HighWord(buf, pos + 5) * M32 + low, 9) else Target(base / M32 * M32 + low, 5)
  }

  // ---------- packets ----------

  /** How far a packet reaches (not positive: it is not one), what it reports and the registers after it. */
  datatype Packet = Packet(len: int, events: seq<Event>, registers: Registers)

  function Silent(len: int, r: Registers): Packet { Packet(len, [], r) }

  function Jump(len: int, address: u64, r: Registers): Packet {
    Packet(len, [Address(address)], Shifted(r, address))
  }

  function Sized(n: Option<nat>, before: nat, r: Registers): Packet {
    match n
    case None => Silent(-1, r)
    case Some(k) => Silent(before + k, r)
  }

  function ExtensionPacket(buf: seq<byte>, pos: nat, r: Registers): Packet {
    var kind := At(buf, pos + 1);
    if kind == 0 then Silent(if Aligns(buf, pos) then 12 else -1, r)
    else if kind == 3 then Silent(2, r)
    else if kind == 5 then Packet(2, [Overflow], r)
    else Silent(-1, r)
  }

  function AddressPacket(buf: seq<byte>, pos: nat, r: Registers): Packet {
    var c := At(buf, pos);
    if c == 0x95 || c == 0x96 then
      var t := ShortTarget(buf, pos, r.a0);
      Jump(t.len, t.address, r)
    else if c == 0x9a || c == 0x9b || c == 0x9d || c == 0x9e then
      var t := LongTarget(buf, pos, r.a0, c == 0x9b || c == 0x9e, c >= 0x9d);
      Jump(t.len, t.address, r)
    else if c == 0x90 then Jump(1, r.a0, r)
    else if c == 0x91 then Jump(1, r.a1, r)
    else if c == 0x92 then Jump(1, r.a2, r)
    else if c == 0x82 || c == 0x83 || c == 0x85 || c == 0x86 then
      var t := LongTarget(buf, pos, r.a0, c == 0x83 || c == 0x86, c >= 0x85);
      Jump(t.len + ContextLength(At(buf, pos + t.len)), t.address, r)
    else Packet(1, [Unsupported], r)
  }

  /** Packets that only say how long they are. */
  function QuietPacket(buf: seq<byte>, pos: nat, r: Registers): Packet {
    var c := At(buf, pos);
    if c <= 3 then Silent(StampLength(buf, pos), r)
    else if 0x0C <= c <= 0x0D then Silent(2, r)
    else if 0x0E <= c <= 0x0F || c == 0x6C then Sized(Field(buf, pos + 1, 4), 1, r)
    else if c == 0x6D || 0x50 <= c <= 0x5F then Silent(2, r)
    else if 0x68 <= c <= 0x6F then
      match Payloads(buf, pos + 1, if c / 4 % 2 == 1 then 1 else 2) {
        case None => Silent(-1, r)
        case Some(end) => Silent(end - pos, r)
      }
    else if 0x80 <= c <= 0x81 then
      Silent(if c == 0x81 then 1 + ContextLength(At(buf, pos + 1)) else 1, r)
    else Silent(1, r)
  }

  /** Cancel, mispredict and Q packets, and atom packets inside an exception packet. */
  predicate IsUnsupported(index: int) { 11 <= index <= 13 || 35 <= index <= 55 }

  predicate IsAddress(index: int) { 23 <= index <= 29 || 31 <= index <= 34 }

  function ExceptionKind(info: byte): nat { info / 64 % 2 * 2 + info % 2 }

  function PacketAt(buf: seq<byte>, pos: nat, r: Registers): Packet
    decreases if pos < |buf| then |buf| - pos else 0
  {
    var c := At(buf, pos);
    var index := PacketIndex(c);
    if index == 0 then ExtensionPacket(buf, pos, r)
    else if index == 1 then
      match TraceInfoEnd(buf, pos) {
        case None => Silent(-1, r)
        case Some(end) => Silent(end - pos, CLEARED)
      }
    else if c == 6 then
      var info := At(buf, pos + 1);
      var inner := if info >= 128 then 3 else 2;
      if ExceptionKind(info) == 1 then Packet(inner, [Exception], r)
      else if ExceptionKind(info) != 2 then Packet(-1, [Exception], r)
      else
        var p := PacketAt(buf, pos + inner, r);
        Packet(if p.len > 0 then inner + p.len else -1, [Exception] + p.events, p.registers)
    else if index == -1 then Silent(-1, r)
    else if IsUnsupported(index) then Packet(1, [Unsupported], r)
    else if IsAddress(index) then AddressPacket(buf, pos, r)
    else QuietPacket(buf, pos, r)
  }

  /** An exception packet, by its information byte. */
  lemma ExceptionAt(buf: seq<byte>, pos: nat, r: Registers)
    requires At(buf, pos) == 6
    ensures pos < |buf|
    ensures var info := At(buf, pos + 1);
            var inner, kind := if info >= 128 then 3 else 2, info / 64 % 2 * 2 + info % 2;
            PacketAt(buf, pos, r) ==
              if kind == 1 then Packet(inner, [Exception], r)
              else if kind != 2 then Packet(-1, [Exception], r)
              else
                var p := PacketAt(buf, pos + inner, r);
                Packet(if p.len > 0 then inner + p.len else -1, [Exception] + p.events, p.registers)
  {
    hide ExtensionPacket, AddressPacket, QuietPacket, TraceInfoEnd;
  }

  // ---------- a whole trace ----------

  /** An alignment packet followed by a trace info packet. */
  predicate SyncsAt(buf: seq<byte>, i: nat) {
    && At(buf, i) == 0
    && ExtensionPacket(buf, i, CLEARED).len == 12
    && At(buf, i + 12) == 1
    && TraceInfoEnd(buf, i + 12).Some?
  }

  /** Where decoding starts: the first place that synchronizes. */
  function SyncPoint(buf: seq<byte>, i: nat): (at: Option<nat>)
    requires i <= |buf|
    ensures at.Some? ==> i <= at.value < |buf|
    decreases |buf| - i
  {
    if i == |buf| then None else if SyncsAt(buf, i) then Some(i) else SyncPoint(buf, i + 1)
  }

  /** The search for that place already counts overflow packets. */
  function SyncEvents(buf: seq<byte>, i: nat): seq<Event>
    requires i <= |buf|
    decreases |buf| - i
  {
    if i == |buf| || SyncsAt(buf, i) then []
    else (if buf[i] == 0 then ExtensionPacket(buf, i, CLEARED).events else []) + SyncEvents(buf, i + 1)
  }

  /** Decoding stops at an overflow, and in this model at a packet it does not cover. */
  predicate Stops(es: seq<Event>) { Overflow in es || Unsupported in es }

  function Advance(len: int): nat { if len <= 0 then 1 else len }

  /** The events from cur on. */
  function EventsFrom(buf: seq<byte>, cur: nat, r: Registers): seq<Event>
    decreases if cur < |buf| then |buf| - cur else 0
  {
    if cur >= |buf| then []
    else if PacketIndex(buf[cur]) == -1 then EventsFrom(buf, cur + 1, r)
    else if IsAtomHeader(buf[cur]) then [Branches(AtomsOf(buf[cur]))] + EventsFrom(buf, cur + 1, r)
    else
      var p := PacketAt(buf, cur, r);
      if Stops(p.events) then p.events else p.events + EventsFrom(buf, cur + Advance(p.len), p.registers)
  }

  /** One packet, or one run of atoms, and what comes after it. */
  lemma NextEvents(buf: seq<byte>, cur: nat, r: Registers)
    requires cur < |buf| && PacketIndex(buf[cur]) != -1
    ensures var c := buf[cur];
            var p := if IsAtomHeader(c) then Packet(1, [Branches(AtomsOf(c))], r) else PacketAt(buf, cur, r);
            EventsFrom(buf, cur, r)
              == p.events + if Stops(p.events) then [] else EventsFrom(buf, cur + Advance(p.len), p.registers)
  {
    hide PacketAt, AtomsOf, PacketIndex;
  }

  /** The events of a trace. */
  function Events(buf: seq<byte>): seq<Event> {
    var before := SyncEvents(buf, 0);
    match SyncPoint(buf, 0)
    case None => before
    case Some(i) => if Overflow in before then before else before + EventsFrom(buf, i, CLEARED)
  }

  // ---------- nothing after an overflow ----------

  /** No overflow but in the last place. */
  ghost predicate LastOnly(es: seq<Event>) {
    forall k | 0 <= k < |es| - 1 :: es[k] != Overflow
  }

  lemma LastOnlyAfter(a: seq<Event>, b: seq<Event>)
    requires Overflow !in a && LastOnly(b)
    ensures LastOnly(a + b)
  {}

  lemma {:induction false} PacketOverflowIsLast(buf: seq<byte>, pos: nat, r: Registers)
    ensures LastOnly(PacketAt(buf, pos, r).events)
    decreases if pos < |buf| then |buf| - pos else 0
  {
    var info := At(buf, pos + 1);
    if At(buf, pos) == 6 && ExceptionKind(info) == 2 {
      var at := pos + if info >= 128 then 3 else 2;
      PacketOverflowIsLast(buf, at, r);
      LastOnlyAfter([Exception], PacketAt(buf, at, r).events);
    }
  }

  lemma {:induction false} OverflowIsLast(buf: seq<byte>, cur: nat, r: Registers)
    ensures LastOnly(EventsFrom(buf, cur, r))
    decreases if cur < |buf| then |buf| - cur else 0
  {
    hide PacketAt, PacketIndex, AtomsOf;
    if cur < |buf| {
      var c := buf[cur];
      if PacketIndex(c) == -1 {
        OverflowIsLast(buf, cur + 1, r);
      } else if IsAtomHeader(c) {
        OverflowIsLast(buf, cur + 1, r);
        LastOnlyAfter([Branches(AtomsOf(c))], EventsFrom(buf, cur + 1, r));
      } else {
        var p := PacketAt(buf, cur, r);
        PacketOverflowIsLast(buf, cur, r);
        if !Stops(p.events) {
          OverflowIsLast(buf, cur + Advance(p.len), p.registers);
          LastOnlyAfter(p.events, EventsFrom(buf, cur + Advance(p.len), p.registers));
        }
      }
    }
  }

  lemma {:induction false} SyncOnlyOverflows(buf: seq<byte>, i: nat)
    requires i <= |buf|
    ensures forall e | e in SyncEvents(buf, i) :: e == Overflow
    ensures SyncEvents(buf, i) == [] || Overflow in SyncEvents(buf, i)
    decreases |buf| - i
  {
    if i < |buf| { SyncOnlyOverflows(buf, i + 1); }
  }

  /** After an overflow packet a trace says nothing but, while synchronizing, further overflows. */
  lemma NothingAfterOverflow(buf: seq<byte>, k: nat, j: nat)
    requires k <= j < |Events(buf)| && Events(buf)[k] == Overflow
    ensures Events(buf)[j] == Overflow
  {
    hide EventsFrom, SyncEvents, SyncPoint;
    var before := SyncEvents(buf, 0);
    SyncOnlyOverflows(buf, 0);
    if SyncPoint(buf, 0).Some? && Overflow !in before {
      assert before == [];
      OverflowIsLast(buf, SyncPoint(buf, 0).value, CLEARED);
    } else {
      assert Events(buf)[j] in before;
    }
  }

  lemma {:induction false} OnlyOverflows(p: Program, w: Walk, es: seq<Event>)
    requires forall k | 0 <= k < |es| :: es[k] == Overflow
    ensures Walked(p, w, es) == w
    decreases es
  {
    if es != [] {
      assert es[0] == Overflow;
      OnlyOverflows(p, w, es[1..]);
    }
  }

  /** So the edges of a trace are those before its first overflow packet. */
  lemma EdgesBeforeOverflow(p: Program, buf: seq<byte>, k: nat)
    requires k < |Events(buf)| && Events(buf)[k] == Overflow
    ensures Walked(p, START, Events(buf)) == Walked(p, START, Events(buf)[..k])
  {
    var es := Events(buf);
    forall j | 0 <= j < |es[k..]|
      ensures es[k..][j] == Overflow
    {
      NothingAfterOverflow(buf, k, k + j);
    }
    OnlyOverflows(p, Walked(p, START, es[..k]), es[k..]);
    WalkedConcat(p, START, es[..k], es[k..]);
    assert es == es[..k] + es[k..];
  }
}
