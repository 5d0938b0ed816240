/**
  Packets written byte by byte, to check the decoder against: atoms of any
  format, addresses in any form that can express them after the addresses
  before, with and without a context, exceptions with and without a packet
  inside, overflows, and all the packets that report nothing. Each is read as
  what was written.
 */
module PacketWriter {
  import opened Bytes
  import opened Words
  import opened Atoms
  import opened TraceEvents
  import opened Tracer
  import opened Packets

  // ---------- addresses ----------

  /** Instruction set 0 for multiples of four, else 1, unless the form says which. */
  datatype Form =
    | Full           // eight bytes
    | LowHalf        // four bytes, the others as in the address before
    | Short          // bits 2 to 8
    | Middle         // bits 2 to 16
    | ShortIs1       // bits 1 to 7
    | Again(n: Slot) // one of the last three addresses

  type Slot = n: int | 0 <= n < 3

  function LowBytes(a: u64): (s: seq<byte>)
    ensures |s| == 4
  {
    var q := a / 0x1_0000;
    (if a % 4 == 0 then [a / 4 % 128, a / 4 / 128 % 128] else [a / 2 % 128, a / 2 / 128 % 256])
      + [q % 256, q / 256 % 256]
  }

  function HighBytes(a: u64): (s: seq<byte>)
    ensures |s| == 4
  {
    var h := a / 0x1_0000 / 256 / 256;
    [h % 256, h / 256 % 256, h / 256 / 256 % 256, h / 256 / 256 / 256 % 256]
  }

  function AddressBytes(form: Form, a: u64): (s: seq<byte>)
    ensures |s| > 0
  {
    match form
    case Full => [if a % 4 == 0 then 0x9d else 0x9e] + (LowBytes(a) + HighBytes(a))
    case LowHalf => [if a % 4 == 0 then 0x9a else 0x9b] + LowBytes(a)
    case Short => [0x95, a / 4 % 128]
    case Middle => [0x95, 128 + a / 4 % 128, a / 0x200 % 256]
    case ShortIs1 => [0x96, a / 2 % 128]
    case Again(n) => [0x90 + n]
  }

  /** The form can express the address after those in the registers. */
  predicate Expresses(form: Form, a: u64, r: Registers) {
    match form
    case Full => a % 2 == 0
    case LowHalf => a % 2 == 0 && a / M32 == r.a0 / M32
    case Short => a % 4 == 0 && a / 0x200 == r.a0 / 0x200
    case Middle => a % 4 == 0 && a / 0x2_0000 == r.a0 / 0x2_0000
    case ShortIs1 => a % 2 == 0 && a / 0x100 == r.a0 / 0x100
    case Again(n) => a == if n == 0 then r.a0 else if n == 1 then r.a1 else r.a2
  }

  /** s stands in buf at cur. */
  ghost predicate Stands(buf: seq<byte>, cur: nat, s: seq<byte>) {
    cur + |s| <= |buf| && buf[cur..cur + |s|] == s
  }

  lemma StandsAt(buf: seq<byte>, cur: nat, s: seq<byte>, k: nat)
    requires Stands(buf, cur, s) && k < |s|
    ensures At(buf, cur + k) == s[k]
  {
    assert buf[cur..cur + |s|][k] == buf[cur + k];
  }

  lemma LowDigits4(a: u64, q: nat)
    requires a % 4 == 0 && q == a / 0x1_0000
    ensures a / 4 / 128 / 128 == q && a == a / 4 % 128 * 4 + a / 4 / 128 % 128 * 0x200 + q * 0x1_0000
  {}

  lemma LowDigits2(a: u64, q: nat)
    requires a % 2 == 0 && q == a / 0x1_0000
    ensures a / 2 / 128 / 256 == q && a == a / 2 % 128 * 2 + a / 2 / 128 % 256 * 0x100 + q * 0x1_0000
  {}

  lemma HighDigits(a: u64, q: nat, h: nat)
    requires q == a / 0x1_0000 && h == q / 256 / 256
    ensures h == a / M32 && a % M32 == a - q * 0x1_0000 + (q % 256) * 0x1_0000 + q / 256 % 256 * 0x100_0000
    ensures h == h % 256 + h / 256 % 256 * 0x100 + h / 256 / 256 % 256 * 0x1_0000
                 + h / 256 / 256 / 256 % 256 * 0x100_0000
  {
    assert q == q % 256 + q / 256 % 256 * 256 + h * 0x1_0000;
    assert a == h * M32 + (a - q * 0x1_0000 + (q % 256) * 0x1_0000 + q / 256 % 256 * 0x100_0000);
  }

  lemma LowSum(a: u64, is1: bool, b1: nat, b2: nat, b3: nat, b4: nat)
    requires a % 2 == 0 && is1 == (a % 4 != 0)
    requires b1 == (if is1 then a / 2 % 128 else a / 4 % 128)
      && b2 == (if is1 then a / 2 / 128 % 256 else a / 4 / 128 % 128)
    requires b3 == a / 0x1_0000 % 256 && b4 == a / 0x1_0000 / 256 % 256
    ensures (if is1 then b1 * 2 + b2 * 0x100 else b1 * 4 + b2 * 0x200) + b3 * 0x1_0000 + b4 * 0x100_0000 == a % M32
  {
    var q := a / 0x1_0000;
    HighDigits(a, q, q / 256 / 256);
    if is1 { LowDigits2(a, q); } else { LowDigits4(a, q); }
  }

  lemma LowWordOf(buf: seq<byte>, pos: nat, is1: bool, b1: nat, b2: nat, b3: nat, b4: nat)
    requires At(buf, pos) == b1 < 128 && At(buf, pos + 1) == b2 && (is1 || b2 < 128)
    requires At(buf, pos + 2) == b3 && At(buf, pos + 3) == b4
    ensures LowWord(buf, pos, is1)
         == (if is1 then b1 * 2 + b2 * 0x100 else b1 * 4 + b2 * 0x200) + b3 * 0x1_0000 + b4 * 0x100_0000
  {
    hide At;
  }

  lemma LowBytesAre(a: u64)
    requires a % 2 == 0
    ensures var s, q := LowBytes(a), a / 0x1_0000;
      && s[0] == (if a % 4 == 0 then a / 4 % 128 else a / 2 % 128)
      && s[1] == (if a % 4 == 0 then a / 4 / 128 % 128 else a / 2 / 128 % 256)
      && s[2] == q % 256 && s[3] == q / 256 % 256
  {}

  lemma LowReads(buf: seq<byte>, pos: nat, a: u64)
    requires a % 2 == 0 && Stands(buf, pos, LowBytes(a))
    ensures LowWord(buf, pos, a % 4 != 0) == a % M32
  {
    hide Stands, LowBytes, At, LowWord;
    var s := LowBytes(a);
    LowBytesAre(a);
    StandsAt(buf, pos, s, 0);
    StandsAt(buf, pos, s, 1);
    StandsAt(buf, pos, s, 2);
    StandsAt(buf, pos, s, 3);
    LowSum(a, a % 4 != 0, s[0], s[1], s[2], s[3]);
    LowWordOf(buf, pos, a % 4 != 0, s[0], s[1], s[2], s[3]);
  }

  lemma HighReads(buf: seq<byte>, pos: nat, a: u64)
    requires Stands(buf, pos, HighBytes(a))
    ensures HighWord(buf, pos) == a / M32
  {
    hide Stands, At;
    var s, q := HighBytes(a), a / 0x1_0000;
    StandsAt(buf, pos, s, 0);
    StandsAt(buf, pos, s, 1);
    StandsAt(buf, pos, s, 2);
    StandsAt(buf, pos, s, 3);
    HighDigits(a, q, q / 256 / 256);
  }

  lemma FullReads(buf: seq<byte>, cur: nat, r: Registers, a: u64)
    requires a % 2 == 0 && Stands(buf, cur, AddressBytes(Full, a))
    ensures AddressPacket(buf, cur, r) == Jump(9, a, r) && At(buf, cur) == if a % 4 == 0 then 0x9d else 0x9e
  {
    hide Stands, LowBytes, HighBytes, LowWord, HighWord, At;
    StandsAt(buf, cur, AddressBytes(Full, a), 0);
    StandsSplit(buf, cur, [if a % 4 == 0 then 0x9d else 0x9e], LowBytes(a) + HighBytes(a));
    StandsSplit(buf, cur + 1, LowBytes(a), HighBytes(a));
    LowReads(buf, cur + 1, a);
    HighReads(buf, cur + 5, a);
    assert a == a / M32 * M32 + a % M32;
  }

  lemma LowHalfReads(buf: seq<byte>, cur: nat, r: Registers, a: u64)
    requires Expresses(LowHalf, a, r) && Stands(buf, cur, AddressBytes(LowHalf, a))
    ensures AddressPacket(buf, cur, r) == Jump(5, a, r) && At(buf, cur) == if a % 4 == 0 then 0x9a else 0x9b
  {
    hide Stands, LowBytes, LowWord, HighWord, At;
    StandsAt(buf, cur, AddressBytes(LowHalf, a), 0);
    StandsSplit(buf, cur, [if a % 4 == 0 then 0x9a else 0x9b], LowBytes(a));
    LowReads(buf, cur + 1, a);
    assert a == a / M32 * M32 + a % M32;
  }

  lemma LowBitsIs0(a: nat)
    requires a % 4 == 0
    ensures a == a / 0x200 * 0x200 + a / 4 % 128 * 4
  {
    var k := a / 4;
    assert a == 4 * (k / 128 * 128 + k % 128);
    DivUnique(a, 0x200, k / 128, 4 * (k % 128));
  }

  lemma LowBitsIs1(a: nat)
    requires a % 2 == 0
    ensures a == a / 0x100 * 0x100 + a / 2 % 128 * 2
  {
    var k := a / 2;
    assert a == 2 * (k / 128 * 128 + k % 128);
    DivUnique(a, 0x100, k / 128, 2 * (k % 128));
  }

  lemma MiddleBits(a: nat)
    ensures a / 0x200 * 0x200 == a / 0x2_0000 * 0x2_0000 + a / 0x200 % 256 * 0x200
  {
    var h := a / 0x200;
    DivUnique(a, 0x2_0000, h / 256, h % 256 * 0x200 + a % 0x200);
  }

  lemma ShortReads(buf: seq<byte>, cur: nat, r: Registers, a: u64, form: Form)
    requires form == Short || form == ShortIs1 || form == Middle
    requires Expresses(form, a, r) && Stands(buf, cur, AddressBytes(form, a))
    ensures AddressPacket(buf, cur, r) == Jump(|AddressBytes(form, a)|, a, r)
    ensures At(buf, cur) == if form == ShortIs1 then 0x96 else 0x95
  {
    hide Stands, At, Jump;
    var s := AddressBytes(form, a);
    StandsAt(buf, cur, s, 0);
    StandsAt(buf, cur, s, 1);
    if form == Middle { StandsAt(buf, cur, s, 2); }
    MiddleBits(a);
    if form == ShortIs1 { LowBitsIs1(a); } else { LowBitsIs0(a); }
  }

  /** Whatever form an address is written in, it is read as that address. */
  lemma AddressReads(buf: seq<byte>, cur: nat, r: Registers, a: u64, form: Form)
    requires Expresses(form, a, r) && Stands(buf, cur, AddressBytes(form, a))
    ensures PacketAt(buf, cur, r) == Jump(|AddressBytes(form, a)|, a, r)
    ensures PacketIndex(At(buf, cur)) != -1 && !IsAtomHeader(At(buf, cur))
  {
    hide Stands, AddressPacket, ExtensionPacket, QuietPacket, TraceInfoEnd;
    match form {
      case Full => FullReads(buf, cur, r, a);
      case LowHalf => LowHalfReads(buf, cur, r, a);
      case Again(n) => AgainReads(buf, cur, r, a, n);
      case _ => ShortReads(buf, cur, r, a, form);
    }
    AddressHeader(buf, cur, r);
  }

  lemma AgainReads(buf: seq<byte>, cur: nat, r: Registers, a: u64, n: Slot)
    requires Expresses(Again(n), a, r) && Stands(buf, cur, AddressBytes(Again(n), a))
    ensures AddressPacket(buf, cur, r) == Jump(1, a, r) && At(buf, cur) == 0x90 + n
  {
    StandsAt(buf, cur, AddressBytes(Again(n), a), 0);
  }

  lemma AddressHeader(buf: seq<byte>, cur: nat, r: Registers)
    ensures At(buf, cur) in {0x90, 0x91, 0x92, 0x95, 0x96, 0x9a, 0x9b, 0x9d, 0x9e} ==>
              PacketAt(buf, cur, r) == AddressPacket(buf, cur, r) && PacketIndex(At(buf, cur)) != -1
  {
    hide AddressPacket, ExtensionPacket, QuietPacket, TraceInfoEnd;
  }

  lemma StandsSplit(buf: seq<byte>, cur: nat, s: seq<byte>, t: seq<byte>)
    requires Stands(buf, cur, s + t)
    ensures Stands(buf, cur, s) && Stands(buf, cur + |s|, t)
  {
    assert buf[cur..cur + |s + t|][..|s|] == buf[cur..cur + |s|];
    assert buf[cur..cur + |s + t|][|s|..] == buf[cur + |s|..cur + |s| + |t|];
  }

  // ---------- fields and contexts ----------

  /** Groups of seven bits; all bytes but the last have the top bit set. */
  function FieldBytes(groups: seq<byte>): (s: seq<byte>)
    ensures |s| == |groups|
  {
    if |groups| <= 1 then groups else [128 + groups[0] % 128] + FieldBytes(groups[1..])
  }

  predicate IsField(groups: seq<byte>, max: nat) {
    1 <= |groups| <= max && forall k | 0 <= k < |groups| :: groups[k] < 128
  }

  lemma {:induction false} FieldReads(buf: seq<byte>, pos: nat, groups: seq<byte>, max: nat)
    requires IsField(groups, max) && Stands(buf, pos, FieldBytes(groups))
    ensures Field(buf, pos, max) == Some(|groups|)
    decreases |groups|
  {
    hide Stands, At;
    StandsAt(buf, pos, FieldBytes(groups), 0);
    if |groups| > 1 {
      StandsSplit(buf, pos, [128 + groups[0] % 128], FieldBytes(groups[1..]));
      FieldReads(buf, pos + 1, groups[1..], max - 1);
    }
  }

  /** A field that is there only if the list of its groups is not empty. */
  lemma SectionReads(buf: seq<byte>, pos: nat, groups: seq<byte>, max: nat)
    requires groups == [] || IsField(groups, max)
    requires Stands(buf, pos, FieldBytes(groups))
    ensures Section(buf, Some(pos), groups != [], max) == Some(pos + |groups|)
  {
    hide Stands, Field, FieldBytes, At;
    if groups != [] { FieldReads(buf, pos, groups, max); }
  }

  /** The information byte, a byte of virtual context if bit 6 is set, four of context if bit 7 is. */
  datatype Context = Context(info: byte, more: seq<byte>)

  predicate IsContext(c: Context) {
    |c.more| == (if c.info % 128 >= 64 then 1 else 0) + (if c.info >= 128 then 4 else 0)
  }

  lemma ContextReads(buf: seq<byte>, at: nat, c: Context)
    requires IsContext(c) && Stands(buf, at, [c.info] + c.more)
    ensures ContextLength(At(buf, at)) == 1 + |c.more|
  {
    StandsAt(buf, at, [c.info] + c.more, 0);
  }

  /** An address of four or eight bytes and a context. */
  function AddressContextBytes(a: u64, wide: bool, c: Context): seq<byte> {
    var header: byte := (if wide then 0x85 else 0x82) + if a % 4 == 0 then 0 else 1;
    [header] + (LowBytes(a) + (if wide then HighBytes(a) else []) + ([c.info] + c.more))
  }

  lemma AddressContextReads(buf: seq<byte>, cur: nat, r: Registers, a: u64, wide: bool, c: Context)
    requires Expresses(if wide then Full else LowHalf, a, r) && IsContext(c)
    requires Stands(buf, cur, AddressContextBytes(a, wide, c))
    ensures AddressPacket(buf, cur, r) == Jump(|AddressContextBytes(a, wide, c)|, a, r)
    ensures 0x82 <= At(buf, cur) <= 0x86 && At(buf, cur) != 0x84
  {
    hide Stands, LowBytes, HighBytes, LowWord, HighWord, At, ContextLength, IsContext;
    var header: byte := (if wide then 0x85 else 0x82) + if a % 4 == 0 then 0 else 1;
    var high, context := if wide then HighBytes(a) else [], [c.info] + c.more;
    StandsAt(buf, cur, AddressContextBytes(a, wide, c), 0);
    StandsSplit(buf, cur, [header], LowBytes(a) + high + context);
    StandsSplit(buf, cur + 1, LowBytes(a) + high, context);
    StandsSplit(buf, cur + 1, LowBytes(a), high);
    LowReads(buf, cur + 1, a);
    if wide { HighReads(buf, cur + 5, a); }
    ContextReads(buf, cur + 1 + |LowBytes(a) + high|, c);
    assert a == a / M32 * M32 + a % M32;
  }

  // ---------- packets that report nothing ----------

  datatype Quiet =
    | Single(header: byte)
    | Double(header: byte, payload: byte)
    | Counted(header: byte, groups: seq<byte>)
    | Stamp(groups: seq<byte>, count: seq<byte>)          // up to seven groups
    | LongStamp(groups: seq<byte>, last: seq<byte>, count: seq<byte>) // seven groups and two full bytes
    | OneResult(header: byte, first: byte, key: seq<byte>)
    | TwoResults(header: byte, first: byte, key: seq<byte>, second: byte, key': seq<byte>)
    | NoContext
    | NewContext(context: Context)

  predicate IsQuiet(p: Quiet) {
    match p
    case Single(c) =>
      // trace on, cycle count format 3, data synchronization, conditional instruction and results, events
      c == 0x04 || 0x10 <= c <= 0x2F || 0x40 <= c <= 0x4F || 0x70 <= c <= 0x7F
    case Double(c, _) => 0x0C <= c <= 0x0D || 0x50 <= c <= 0x5F || c == 0x6D
    case Counted(c, groups) => (0x0E <= c <= 0x0F || c == 0x6C) && IsField(groups, 4)
    case Stamp(groups, count) => IsField(groups, 7) && (count == [] || IsField(count, 3))
    case LongStamp(groups, last, count) => IsField(groups, 7) && |groups| == 7 && |last| == 2
      && (count == [] || IsField(count, 3))
    case OneResult(c, _, key) => c in {0x6E, 0x6F} && IsField(key, 5)
    case TwoResults(c, _, key, _, key') => 0x68 <= c <= 0x6B && IsField(key, 5) && IsField(key', 5)
    case NoContext => true
    case NewContext(context) => IsContext(context)
  }

  function QuietBytes(p: Quiet): (s: seq<byte>)
    ensures |s| > 0
  {
    match p
    case Single(c) => [c]
    case Double(c, payload) => [c, payload]
    case Counted(c, groups) => [c] + FieldBytes(groups)
    case Stamp(groups, count) => [if count == [] then 2 else 3] + (FieldBytes(groups) + FieldBytes(count))
    case LongStamp(groups, last, count) =>
      [if count == [] then 2 else 3] + (Continued(groups) + (last + FieldBytes(count)))
    case OneResult(c, first, key) => [c] + ([first] + FieldBytes(key))
    case TwoResults(c, first, key, second, key') =>
      [c] + ([first] + FieldBytes(key) + ([second] + FieldBytes(key')))
    case NoContext => [0x80]
    case NewContext(context) => [0x81] + ([context.info] + context.more)
  }

  /** Groups that announce another one each. */
  function Continued(groups: seq<byte>): (s: seq<byte>)
    ensures |s| == |groups|
  {
    seq(|groups|, k requires 0 <= k < |groups| => 128 + groups[k] % 128)
  }

  lemma CountedReads(buf: seq<byte>, cur: nat, r: Registers, c: byte, groups: seq<byte>)
    requires IsQuiet(Counted(c, groups)) && Stands(buf, cur, QuietBytes(Counted(c, groups)))
    ensures QuietPacket(buf, cur, r) == Silent(|QuietBytes(Counted(c, groups))|, r)
  {
    hide Stands, Field;
    StandsAt(buf, cur, QuietBytes(Counted(c, groups)), 0);
    StandsSplit(buf, cur, [c], FieldBytes(groups));
    FieldReads(buf, cur + 1, groups, 4);
  }

  lemma {:induction false} StampEnds(buf: seq<byte>, cur: nat, index: nat, groups: seq<byte>)
    requires 1 <= index && groups != [] && index + |groups| <= 8 && IsField(groups, 7)
    requires Stands(buf, cur + index, FieldBytes(groups))
    ensures StampEnd(buf, cur, index) == index + |groups|
    decreases |groups|
  {
    hide Stands, At;
    StandsAt(buf, cur + index, FieldBytes(groups), 0);
    if |groups| > 1 {
      StandsSplit(buf, cur + index, [128 + groups[0] % 128], FieldBytes(groups[1..]));
      StampEnds(buf, cur, index + 1, groups[1..]);
    }
  }

  lemma {:induction false} LongStampEnds(buf: seq<byte>, cur: nat, index: nat)
    requires 1 <= index <= 8 && forall k | cur + index <= k < cur + 8 :: At(buf, k) >= 128
    ensures StampEnd(buf, cur, index) == 10
    decreases 8 - index
  {
    hide At;
    if index < 8 {
      LongStampEnds(buf, cur, index + 1);
    } else {
      assert StampEnd(buf, cur, 8) == StampEnd(buf, cur, 9);
      assert StampEnd(buf, cur, 10) == 10;
    }
  }

  lemma StampReads(buf: seq<byte>, cur: nat, groups: seq<byte>, count: seq<byte>)
    requires IsQuiet(Stamp(groups, count)) && Stands(buf, cur, QuietBytes(Stamp(groups, count)))
    ensures StampLength(buf, cur) == |QuietBytes(Stamp(groups, count))|
    ensures At(buf, cur) == if count == [] then 2 else 3
  {
    hide Stands, Field, StampEnd;
    StandsAt(buf, cur, QuietBytes(Stamp(groups, count)), 0);
    StandsSplit(buf, cur, [if count == [] then 2 else 3], FieldBytes(groups) + FieldBytes(count));
    StandsSplit(buf, cur + 1, FieldBytes(groups), FieldBytes(count));
    StampEnds(buf, cur, 1, groups);
    if count != [] { FieldReads(buf, cur + 1 + |groups|, count, 3); }
  }

  lemma LongStampReads(buf: seq<byte>, cur: nat, groups: seq<byte>, last: seq<byte>, count: seq<byte>)
    requires IsQuiet(LongStamp(groups, last, count)) && Stands(buf, cur, QuietBytes(LongStamp(groups, last, count)))
    ensures StampLength(buf, cur) == |QuietBytes(LongStamp(groups, last, count))|
    ensures At(buf, cur) == if count == [] then 2 else 3
  {
    hide Stands, Field, StampEnd, At;
    StandsAt(buf, cur, QuietBytes(LongStamp(groups, last, count)), 0);
    StandsSplit(buf, cur, [if count == [] then 2 else 3], Continued(groups) + (last + FieldBytes(count)));
    StandsSplit(buf, cur + 1, Continued(groups), last + FieldBytes(count));
    StandsSplit(buf, cur + 8, last, FieldBytes(count));
    forall k | cur + 1 <= k < cur + 8
      ensures At(buf, k) >= 128
    {
      StandsAt(buf, cur + 1, Continued(groups), k - cur - 1);
    }
    LongStampEnds(buf, cur, 1);
    if count != [] { FieldReads(buf, cur + 10, count, 3); }
  }

  lemma ResultReads(buf: seq<byte>, at: nat, first: byte, key: seq<byte>, n: nat)
    requires n > 0 && IsField(key, 5) && Stands(buf, at, [first] + FieldBytes(key))
    ensures Payloads(buf, at, n) == Payloads(buf, at + 1 + |key|, n - 1)
  {
    hide Stands, Field;
    StandsSplit(buf, at, [first], FieldBytes(key));
    FieldReads(buf, at + 1, key, 5);
  }

  lemma OneResultReads(buf: seq<byte>, cur: nat, r: Registers, c: byte, first: byte, key: seq<byte>)
    requires IsQuiet(OneResult(c, first, key)) && Stands(buf, cur, QuietBytes(OneResult(c, first, key)))
    ensures QuietPacket(buf, cur, r) == Silent(|QuietBytes(OneResult(c, first, key))|, r)
  {
    hide Stands, Field;
    StandsAt(buf, cur, QuietBytes(OneResult(c, first, key)), 0);
    StandsSplit(buf, cur, [c], [first] + FieldBytes(key));
    ResultReads(buf, cur + 1, first, key, 1);
  }

  lemma TwoResultsRead(buf: seq<byte>, cur: nat, r: Registers, p: Quiet)
    requires p.TwoResults? && IsQuiet(p) && Stands(buf, cur, QuietBytes(p))
    ensures QuietPacket(buf, cur, r) == Silent(|QuietBytes(p)|, r)
  {
    hide Stands, Field;
    var one, two := [p.first] + FieldBytes(p.key), [p.second] + FieldBytes(p.key');
    StandsAt(buf, cur, QuietBytes(p), 0);
    StandsSplit(buf, cur, [p.header], one + two);
    StandsSplit(buf, cur + 1, one, two);
    ResultReads(buf, cur + 1, p.first, p.key, 2);
    ResultReads(buf, cur + 1 + |one|, p.second, p.key', 1);
  }

  lemma NewContextReads(buf: seq<byte>, cur: nat, r: Registers, c: Context)
    requires IsContext(c) && Stands(buf, cur, QuietBytes(NewContext(c)))
    ensures QuietPacket(buf, cur, r) == Silent(|QuietBytes(NewContext(c))|, r)
  {
    hide Stands, ContextLength;
    StandsAt(buf, cur, QuietBytes(NewContext(c)), 0);
    StandsSplit(buf, cur, [0x81], [c.info] + c.more);
    ContextReads(buf, cur + 1, c);
  }

  /** A packet that reports nothing takes its own bytes and no others. */
  lemma QuietReads(buf: seq<byte>, cur: nat, r: Registers, p: Quiet)
    requires IsQuiet(p) && Stands(buf, cur, QuietBytes(p))
    ensures PacketAt(buf, cur, r) == Silent(|QuietBytes(p)|, r)
    ensures PacketIndex(At(buf, cur)) != -1 && !IsAtomHeader(At(buf, cur))
  {
    hide Stands, StampLength, Field, Payloads, ContextLength, ExtensionPacket, AddressPacket, TraceInfoEnd, FieldBytes;
    StandsAt(buf, cur, QuietBytes(p), 0);
    match p {
      case Counted(c, groups) => CountedReads(buf, cur, r, c, groups);
      case Stamp(groups, count) => StampReads(buf, cur, groups, count);
      case LongStamp(groups, last, count) => LongStampReads(buf, cur, groups, last, count);
      case OneResult(c, first, key) => OneResultReads(buf, cur, r, c, first, key);
      case TwoResults(_, _, _, _, _) => TwoResultsRead(buf, cur, r, p);
      case NewContext(c) => NewContextReads(buf, cur, r, c);
      case _ =>
    }
    QuietHeader(buf, cur, r);
  }

  lemma QuietHeader(buf: seq<byte>, cur: nat, r: Registers)
    ensures var c := At(buf, cur);
            2 <= c <= 4 || 0x0C <= c <= 0x2F || 0x40 <= c <= 0x5F || 0x68 <= c <= 0x81 ==>
              PacketAt(buf, cur, r) == QuietPacket(buf, cur, r) && PacketIndex(c) != -1
  {
    hide QuietPacket, ExtensionPacket, AddressPacket, TraceInfoEnd;
  }

  // ---------- all packets ----------

  datatype Piece =
    | AtomPiece(header: byte)
    | AddressPiece(address: u64, form: Form)
    | AddressContextPiece(address: u64, wide: bool, context: Context)
    | QuietPiece(quiet: Quiet)
    | InfoPiece(plctl: byte, about: seq<byte>, key: seq<byte>, spec: seq<byte>, cyct: seq<byte>) // trace info
    | AlignmentPiece
    | DiscardPiece
    | OverflowPiece
    | ExceptionPiece(info: byte, more: seq<byte>)
    | DuringPiece(info: byte, more: seq<byte>, inner: Piece) // an exception packet with a packet inside
    | StrayPiece(c: byte)                                    // no header of any packet

  /** The information byte of an exception packet announces a second one; bits 0 and 6 tell what follows. */
  predicate IsException(info: byte, more: seq<byte>, inside: bool) {
    && |more| == (if info >= 128 then 1 else 0)
    && info % 2 == (if inside then 0 else 1)
    && (info % 128 >= 64 <==> inside)
  }

  predicate IsStray(c: byte) {
    || c == 5 || 8 <= c <= 11 || 0x60 <= c <= 0x67 || c == 0x84 || 0x87 <= c <= 0x8F || c == 0x94
    || 0x97 <= c <= 0x99 || c == 0x9C || c == 0x9F || 0xB0 <= c <= 0xBF
  }

  predicate IsInfo(p: Piece)
    requires p.InfoPiece?
  {
    && p.plctl < 128
    && (p.about == [] || IsField(p.about, 1)) && (p.about != [] <==> p.plctl % 2 == 1)
    && (p.key == [] || IsField(p.key, 4)) && (p.key != [] <==> p.plctl / 2 % 2 == 1)
    && (p.spec == [] || IsField(p.spec, 4)) && (p.spec != [] <==> p.plctl / 4 % 2 == 1)
    && (p.cyct == [] || IsField(p.cyct, 2)) && (p.cyct != [] <==> p.plctl / 8 % 2 == 1)
  }

  /** Whether the packet can be written when these are the last addresses. */
  predicate Encodes(p: Piece, r: Registers) {
    match p
    case AtomPiece(c) => IsAtomHeader(c)
    case AddressPiece(a, form) => Expresses(form, a, r)
    case AddressContextPiece(a, wide, c) => Expresses(if wide then Full else LowHalf, a, r) && IsContext(c)
    case QuietPiece(q) => IsQuiet(q)
    case InfoPiece(_, _, _, _, _) => IsInfo(p)
    case ExceptionPiece(info, more) => IsException(info, more, false)
    case DuringPiece(info, more, inner) => IsException(info, more, true) && Encodes(inner, r)
      && !inner.AtomPiece? && !inner.StrayPiece?
    case StrayPiece(c) => IsStray(c)
    case _ => true
  }

  function PieceBytes(p: Piece): (s: seq<byte>)
    ensures |s| > 0
  {
    match p
    case AtomPiece(c) => [c]
    case AddressPiece(a, form) => AddressBytes(form, a)
    case AddressContextPiece(a, wide, c) => AddressContextBytes(a, wide, c)
    case QuietPiece(q) => QuietBytes(q)
    case InfoPiece(plctl, info, key, spec, cyct) =>
      [1, plctl] + (FieldBytes(info) + (FieldBytes(key) + (FieldBytes(spec) + FieldBytes(cyct))))
    case AlignmentPiece => [0, 0, 0, 0, 0, 0, 0, 0, 0, 0, 0, 0x80]
    case DiscardPiece => [0, 3]
    case OverflowPiece => [0, 5]
    case ExceptionPiece(info, more) => [6, info] + more
    case DuringPiece(info, more, inner) => [6, info] + more + PieceBytes(inner)
    case StrayPiece(c) => [c]
  }

  function Meaning(p: Piece): seq<Event> {
    match p
    case AtomPiece(c) => [Branches(AtomsOf(c))]
    case AddressPiece(a, _) => [Address(a)]
    case AddressContextPiece(a, _, _) => [Address(a)]
    case OverflowPiece => [Overflow]
    case ExceptionPiece(_, _) => [Exception]
    case DuringPiece(_, _, inner) => [Exception] + Meaning(inner)
    case _ => []
  }

  /** The last addresses afterwards; trace info forgets them. */
  function After(p: Piece, r: Registers): Registers {
    match p
    case AddressPiece(a, _) => Shifted(r, a)
    case AddressContextPiece(a, _, _) => Shifted(r, a)
    case InfoPiece(_, _, _, _, _) => CLEARED
    case DuringPiece(_, _, inner) => After(inner, r)
    case _ => r
  }

  lemma InfoReads(buf: seq<byte>, cur: nat, p: Piece)
    requires p.InfoPiece? && IsInfo(p) && Stands(buf, cur, PieceBytes(p))
    ensures TraceInfoEnd(buf, cur) == Some(cur + |PieceBytes(p)|) && At(buf, cur) == 1
  {
    hide Stands, Section, FieldBytes, At, IsField, TraceInfoEnd;
    var info, key, spec, cyct := FieldBytes(p.about), FieldBytes(p.key), FieldBytes(p.spec), FieldBytes(p.cyct);
    StandsAt(buf, cur, PieceBytes(p), 0);
    StandsAt(buf, cur, PieceBytes(p), 1);
    StandsSplit(buf, cur, [1, p.plctl], info + (key + (spec + cyct)));
    StandsSplit(buf, cur + 2, info, key + (spec + cyct));
    StandsSplit(buf, cur + 2 + |info|, key, spec + cyct);
    StandsSplit(buf, cur + 2 + |info| + |key|, spec, cyct);
    InfoSections(buf, cur, p);
  }

  lemma InfoSections(buf: seq<byte>, cur: nat, p: Piece)
    requires p.InfoPiece? && IsInfo(p) && At(buf, cur + 1) == p.plctl
    requires var at := cur + 2 + |p.about|;
      && Stands(buf, cur + 2, FieldBytes(p.about)) && Stands(buf, at, FieldBytes(p.key))
      && Stands(buf, at + |p.key|, FieldBytes(p.spec))
      && Stands(buf, at + |p.key| + |p.spec|, FieldBytes(p.cyct))
    ensures TraceInfoEnd(buf, cur) == Some(cur + 2 + |p.about| + |p.key| + |p.spec| + |p.cyct|)
  {
    hide Stands, Section, FieldBytes, At, IsField;
    var at := cur + 2 + |p.about|;
    OneByteSection(buf, cur + 1);
    SectionReads(buf, cur + 2, p.about, 1);
    SectionReads(buf, at, p.key, 4);
    SectionReads(buf, at + |p.key|, p.spec, 4);
    SectionReads(buf, at + |p.key| + |p.spec|, p.cyct, 2);
  }

  lemma OneByteSection(buf: seq<byte>, pos: nat)
    requires At(buf, pos) < 128
    ensures Section(buf, Some(pos), true, 1) == Some(pos + 1)
  {}

  lemma AlignmentReads(buf: seq<byte>, cur: nat, r: Registers)
    requires Stands(buf, cur, PieceBytes(AlignmentPiece))
    ensures ExtensionPacket(buf, cur, r) == Silent(12, r) && At(buf, cur) == 0
  {
    forall k | 0 <= k < 12 ensures At(buf, cur + k) == PieceBytes(AlignmentPiece)[k] {
      StandsAt(buf, cur, PieceBytes(AlignmentPiece), k);
    }
  }

  lemma ExtensionReads(buf: seq<byte>, cur: nat, r: Registers, p: Piece)
    requires p == DiscardPiece || p == OverflowPiece
    requires Stands(buf, cur, PieceBytes(p))
    ensures ExtensionPacket(buf, cur, r) == Packet(2, Meaning(p), r) && At(buf, cur) == 0
  {
    StandsAt(buf, cur, PieceBytes(p), 0);
    StandsAt(buf, cur, PieceBytes(p), 1);
  }

  lemma ExceptionHead(buf: seq<byte>, cur: nat, r: Registers, info: byte, more: seq<byte>, inside: bool)
    requires IsException(info, more, inside) && Stands(buf, cur, [6, info] + more)
    ensures At(buf, cur) == 6
    ensures !inside ==> PacketAt(buf, cur, r) == Packet(2 + |more|, [Exception], r)
    ensures inside ==>
      var p := PacketAt(buf, cur + 2 + |more|, r);
      PacketAt(buf, cur, r)
        == Packet(if p.len > 0 then 2 + |more| + p.len else -1, [Exception] + p.events, p.registers)
  {
    hide Stands, At, PacketAt;
    StandsAt(buf, cur, [6, info] + more, 0);
    StandsAt(buf, cur, [6, info] + more, 1);
    ExceptionAt(buf, cur, r);
  }

  lemma ContextHeader(buf: seq<byte>, cur: nat, r: Registers)
    ensures var c := At(buf, cur);
            0x82 <= c <= 0x86 && c != 0x84 ==>
              PacketAt(buf, cur, r) == AddressPacket(buf, cur, r) && PacketIndex(c) != -1
    ensures At(buf, cur) == 0 ==> PacketAt(buf, cur, r) == ExtensionPacket(buf, cur, r)
    ensures At(buf, cur) == 1 ==>
      PacketAt(buf, cur, r) == match TraceInfoEnd(buf, cur) {
                                 case None => Silent(-1, r)
                                 case Some(end) => Silent(end - cur, CLEARED)
                               }
  {
    hide QuietPacket, ExtensionPacket, AddressPacket, TraceInfoEnd;
  }

  /** Every packet is read as what was written, wherever it stands. */
  lemma {:induction false} PacketReads(buf: seq<byte>, cur: nat, r: Registers, p: Piece)
    requires Encodes(p, r) && !p.AtomPiece? && !p.StrayPiece? && Stands(buf, cur, PieceBytes(p))
    ensures PacketAt(buf, cur, r) == Packet(|PieceBytes(p)|, Meaning(p), After(p, r))
    ensures PacketIndex(At(buf, cur)) != -1 && !IsAtomHeader(At(buf, cur))
    decreases p
  {
    hide Stands, PacketAt, AddressBytes, QuietBytes, Shifted, ExtensionPacket, AddressPacket, TraceInfoEnd;
    hide AddressContextBytes;
    ContextHeader(buf, cur, r);
    match p {
      case AddressPiece(a, form) => AddressReads(buf, cur, r, a, form);
      case AddressContextPiece(a, wide, c) => AddressContextReads(buf, cur, r, a, wide, c);
      case QuietPiece(q) => QuietReads(buf, cur, r, q);
      case InfoPiece(_, _, _, _, _) => InfoReads(buf, cur, p);
      case AlignmentPiece => AlignmentReads(buf, cur, r);
      case DiscardPiece => ExtensionReads(buf, cur, r, p);
      case OverflowPiece => ExtensionReads(buf, cur, r, p);
      case ExceptionPiece(info, more) => ExceptionHead(buf, cur, r, info, more, false);
      case DuringPiece(info, more, inner) =>
        StandsSplit(buf, cur, [6, info] + more, PieceBytes(inner));
        ExceptionHead(buf, cur, r, info, more, true);
        PacketReads(buf, cur + 2 + |more|, r, inner);
    }
  }

  lemma StandsInside(buf: seq<byte>, cur: nat, s: seq<byte>)
    requires Stands(buf, cur, s) && s != []
    ensures cur < |buf| && buf[cur] == s[0] == At(buf, cur)
  {
    StandsAt(buf, cur, s, 0);
  }

  /** The packet is an overflow packet, or one inside an exception packet. */
  predicate Overflows(p: Piece) {
    p.OverflowPiece? || (p.DuringPiece? && Overflows(p.inner))
  }

  lemma {:induction false} OverflowMeans(p: Piece)
    ensures Stops(Meaning(p)) <==> Overflows(p)
  {
    match p
    case DuringPiece(_, _, inner) => OverflowMeans(inner); assert Meaning(p)[0] == Exception;
    case _ =>
  }

  /** Decoding goes on after a packet, unless it is an overflow: then it ends there, whatever follows. */
  lemma PieceReads(buf: seq<byte>, cur: nat, r: Registers, p: Piece)
    requires Encodes(p, r) && Stands(buf, cur, PieceBytes(p))
    ensures EventsFrom(buf, cur, r)
         == Meaning(p) + if Overflows(p) then [] else EventsFrom(buf, cur + |PieceBytes(p)|, After(p, r))
  {
    hide Stands, PacketAt, PacketIndex, AtomsOf, AddressBytes, QuietBytes, Shifted, Stops, Meaning, Encodes;
    StandsInside(buf, cur, PieceBytes(p));
    match p {
      case AtomPiece(c) => AtomReads(buf, cur, r, c);
      case StrayPiece(c) => StrayReads(buf, cur, r, c);
      case _ =>
        PacketReads(buf, cur, r, p);
        OverflowMeans(p);
    }
  }

  lemma AtomReads(buf: seq<byte>, cur: nat, r: Registers, c: byte)
    requires Encodes(AtomPiece(c), r) && cur < |buf| && buf[cur] == c
    ensures EventsFrom(buf, cur, r) == Meaning(AtomPiece(c)) + EventsFrom(buf, cur + 1, r)
  {
    hide AtomsOf, PacketAt;
    TableIsFirstMatch(c);
  }

  lemma StrayReads(buf: seq<byte>, cur: nat, r: Registers, c: byte)
    requires Encodes(StrayPiece(c), r) && cur < |buf| && buf[cur] == c
    ensures EventsFrom(buf, cur, r) == Meaning(StrayPiece(c)) + EventsFrom(buf, cur + 1, r)
  {
    hide PacketAt;
  }

  // ---------- what cannot be written ----------

  /** An exception packet of no known kind still reports the exception; decoding goes on at its second byte. */
  lemma MalformedException(buf: seq<byte>, cur: nat, r: Registers, info: byte)
    requires Stands(buf, cur, [6, info]) && (info % 2 == 1 <==> info % 128 >= 64)
    ensures EventsFrom(buf, cur, r) == [Exception] + EventsFrom(buf, cur + 1, r)
  {
    hide PacketAt, EventsFrom;
    StandsAt(buf, cur, [6, info], 0);
    StandsAt(buf, cur, [6, info], 1);
    ExceptionAt(buf, cur, r);
    NextEvents(buf, cur, r);
  }

  lemma {:induction false} EndlessField(buf: seq<byte>, pos: nat, max: nat)
    requires forall k | pos <= k < pos + max :: At(buf, k) >= 128
    ensures Field(buf, pos, max) == None
    decreases max
  {
    if max > 0 { EndlessField(buf, pos + 1, max - 1); }
  }

  /** Nor does a cycle count that never ends stop the decoder: it goes on at the byte after the header. */
  lemma EndlessCount(buf: seq<byte>, cur: nat, r: Registers)
    requires cur < |buf| && 0x0E <= buf[cur] <= 0x0F && forall k | cur + 1 <= k < cur + 5 :: At(buf, k) >= 128
    ensures EventsFrom(buf, cur, r) == EventsFrom(buf, cur + 1, r)
  {
    hide PacketAt, EventsFrom, Field;
    EndlessField(buf, cur + 1, 4);
    QuietHeader(buf, cur, r);
    assert PacketAt(buf, cur, r) == Silent(-1, r);
    NextEvents(buf, cur, r);
  }
}
