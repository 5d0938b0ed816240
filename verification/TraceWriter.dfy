/**
  Whole traces. What is written packet by packet, in any choice of packets that
  can express it, is decoded to exactly its events, in order, up to an overflow
  packet if there is one. A compact writer chooses the packets for a given
  sequence of branches, addresses and exceptions.
 */
module TraceWriter {
  import opened Bytes
  import opened Words
  import opened Atoms
  import opened TraceEvents
  import opened Tracer
  import opened Packets
  import opened PacketWriter

  /** An alignment packet and an empty trace info packet. */
  const PREAMBLE: seq<byte> := [0, 0, 0, 0, 0, 0, 0, 0, 0, 0, 0, 0x80, 1, 0]

  // ---------- whole traces ----------

  /** Each packet can be written after those before it, and nothing after an overflow. */
  predicate Fits(ps: seq<Piece>, r: Registers) {
    ps == [] || (Encodes(ps[0], r) && (Overflows(ps[0]) ==> |ps| == 1) && Fits(ps[1..], After(ps[0], r)))
  }

  function Trace(ps: seq<Piece>): seq<byte> {
    if ps == [] then [] else PieceBytes(ps[0]) + Trace(ps[1..])
  }

  function Meanings(ps: seq<Piece>): seq<Event> {
    if ps == [] then [] else Meaning(ps[0]) + Meanings(ps[1..])
  }

  predicate EndsInOverflow(ps: seq<Piece>) {
    ps != [] && Overflows(ps[|ps| - 1])
  }

  /** Decoding what was written gives the events that were written, whatever follows an overflow. */
  lemma {:induction false} TraceReads(buf: seq<byte>, cur: nat, r: Registers, ps: seq<Piece>)
    requires Fits(ps, r) && Stands(buf, cur, Trace(ps))
    requires cur + |Trace(ps)| == |buf| || EndsInOverflow(ps)
    ensures EventsFrom(buf, cur, r) == Meanings(ps)
    decreases |ps|
  {
    hide Stands, Encodes, PieceBytes, Meaning, After, EventsFrom, Overflows;
    if ps == [] {
      NothingLeft(buf, cur, r);
    } else {
      var s, r1 := PieceBytes(ps[0]), After(ps[0], r);
      var t := Trace(ps[1..]);
      assert Trace(ps) == s + t;
      StandsSplit(buf, cur, s, t);
      PieceReads(buf, cur, r, ps[0]);
      if Overflows(ps[0]) {
        assert ps[1..] == [];
      } else {
        assert EndsInOverflow(ps) ==> EndsInOverflow(ps[1..]);
        TraceReads(buf, cur + |s|, r1, ps[1..]);
      }
    }
  }

  lemma NothingLeft(buf: seq<byte>, cur: nat, r: Registers)
    requires cur >= |buf|
    ensures EventsFrom(buf, cur, r) == []
  {}

  /** An alignment packet with trace info behind it synchronizes the decoder, and reports nothing. */
  lemma PreambleSyncs(buf: seq<byte>, at: nat)
    requires Stands(buf, at, PREAMBLE)
    ensures at < |buf| && SyncsAt(buf, at) && EventsFrom(buf, at, CLEARED) == EventsFrom(buf, at + 14, CLEARED)
  {
    hide Stands, PacketAt, TraceInfoEnd, At, ExtensionPacket;
    var info := InfoPiece(0, [], [], [], []);
    assert PREAMBLE == PieceBytes(AlignmentPiece) + PieceBytes(info);
    StandsSplit(buf, at, PieceBytes(AlignmentPiece), PieceBytes(info));
    StandsInside(buf, at, PREAMBLE);
    StandsInside(buf, at + 12, PieceBytes(info));
    AlignmentReads(buf, at, CLEARED);
    InfoReads(buf, at + 12, info);
    PieceReads(buf, at, CLEARED, AlignmentPiece);
    PieceReads(buf, at + 12, CLEARED, info);
  }

  predicate NoZero(s: seq<byte>) {
    forall k | 0 <= k < |s| :: s[k] != 0
  }

  /** What stands before it is skipped, if it cannot be taken for an alignment packet. */
  lemma {:induction false} JunkSkipped(buf: seq<byte>, i: nat, at: nat)
    requires i <= at < |buf| && SyncsAt(buf, at) && NoZero(buf[i..at])
    ensures SyncPoint(buf, i) == Some(at) && SyncEvents(buf, i) == []
    decreases at - i
  {
    hide TraceInfoEnd, ExtensionPacket;
    if i < at {
      assert buf[i..at][0] == buf[i] != 0;
      assert buf[i + 1..at] == buf[i..at][1..];
      JunkSkipped(buf, i + 1, at);
    }
  }

  lemma AllStands(buf: seq<byte>)
    ensures Stands(buf, 0, buf)
  {}

  lemma Synchronized(buf: seq<byte>, at: nat)
    requires Stands(buf, at, PREAMBLE) && NoZero(buf[0..at])
    ensures Events(buf) == EventsFrom(buf, at + 14, CLEARED)
  {
    hide Stands, SyncPoint, SyncEvents, EventsFrom, SyncsAt;
    PreambleSyncs(buf, at);
    JunkSkipped(buf, 0, at);
  }

  /**
    Round trip: whatever junk comes first, a written trace decodes to exactly the
    events of its packets, in order; if it ends in an overflow, whatever follows.
   */
  lemma WrittenTraceDecodes(junk: seq<byte>, ps: seq<Piece>, rest: seq<byte>)
    requires NoZero(junk) && Fits(ps, CLEARED) && (rest == [] || EndsInOverflow(ps))
    ensures Events(junk + PREAMBLE + Trace(ps) + rest) == Meanings(ps)
  {
    hide Stands, Events, EventsFrom, Trace, Fits, Meanings, EndsInOverflow, NoZero;
    var at, t, buf := |junk|, Trace(ps), junk + PREAMBLE + Trace(ps) + rest;
    assert buf == junk + (PREAMBLE + (t + rest));
    AllStands(buf);
    StandsSplit(buf, 0, junk, PREAMBLE + (t + rest));
    StandsSplit(buf, at, PREAMBLE, t + rest);
    StandsSplit(buf, at + 14, t, rest);
    assert buf[0..at] == junk;
    Synchronized(buf, at);
    TraceReads(buf, at + 14, CLEARED, ps);
  }

  // ---------- overflows ----------

  lemma {:induction false} OneMore(ps: seq<Piece>, last: Piece, r: Registers)
    requires Fits(ps, r) && !EndsInOverflow(ps) && last == OverflowPiece
    ensures Fits(ps + [last], r)
    ensures Trace(ps + [last]) == Trace(ps) + PieceBytes(last) && Meanings(ps + [last]) == Meanings(ps) + Meaning(last)
    decreases |ps|
  {
    hide Encodes, PieceBytes, Meaning, After, Overflows;
    if ps == [] {
      assert ps + [last] == [last];
      LastPiece(last, r);
    } else {
      assert (ps + [last])[1..] == ps[1..] + [last] && (ps + [last])[0] == ps[0];
      assert ps[1..] != [] ==> ps[1..][|ps[1..]| - 1] == ps[|ps| - 1];
      OneMore(ps[1..], last, After(ps[0], r));
    }
  }

  lemma LastPiece(last: Piece, r: Registers)
    requires last == OverflowPiece
    ensures Fits([last], r) && Trace([last]) == PieceBytes(last) && Meanings([last]) == Meaning(last)
  {}

  /**
    An overflow packet: the events before it, the overflow, and nothing more,
    whatever follows. Edges and map are those of the trace before it.
   */
  lemma OverflowEndsTrace(p: Program, junk: seq<byte>, ps: seq<Piece>, rest: seq<byte>)
    requires NoZero(junk) && Fits(ps, CLEARED) && !EndsInOverflow(ps)
    ensures var trace := junk + PREAMBLE + Trace(ps);
      && Events(trace + [0, 5] + rest) == Meanings(ps) + [Overflow]
      && Walked(p, START, Events(trace + [0, 5] + rest)) == Walked(p, START, Events(trace))
  {
    hide Events, Trace, Fits, Meanings, NoZero, Walked;
    var trace, qs := junk + PREAMBLE + Trace(ps), ps + [OverflowPiece];
    OneMore(ps, OverflowPiece, CLEARED);
    assert trace + [0, 5] + rest == junk + PREAMBLE + Trace(qs) + rest;
    assert EndsInOverflow(qs);
    WrittenTraceDecodes(junk, qs, rest);
    WrittenTraceDecodes(junk, ps, []);
    assert trace + [] == trace;
    WalkedOne(p, START, Meanings(ps), Overflow);
  }

  /** An overflow packet before the decoder is synchronized: the whole trace counts for nothing. */
  lemma EarlyOverflow(junk: seq<byte>, more: seq<byte>, rest: seq<byte>)
    requires NoZero(junk) && NoZero(more)
    ensures Events(junk + [0, 5] + more + PREAMBLE + rest) == [Overflow]
  {
    hide Stands, Events, EventsFrom, NoZero;
    var at, sync := |junk|, |junk| + 2 + |more|;
    var tail := more + (PREAMBLE + rest);
    var buf := junk + [0, 5] + more + PREAMBLE + rest;
    assert buf == junk + ([0, 5] + tail);
    AllStands(buf);
    StandsSplit(buf, 0, junk, [0, 5] + tail);
    StandsSplit(buf, at, [0, 5], tail);
    StandsSplit(buf, at + 2, more, PREAMBLE + rest);
    StandsSplit(buf, sync, PREAMBLE, rest);
    assert buf[0..at] == junk && buf[at + 1..sync] == [5] + more;
    FiveFirst(more);
    OverflowFirst(buf, at, sync);
  }

  lemma FiveFirst(more: seq<byte>)
    requires NoZero(more)
    ensures NoZero([5] + more)
  {}

  lemma OverflowFirst(buf: seq<byte>, at: nat, sync: nat)
    requires at + 2 <= sync <= |buf| && NoZero(buf[0..at]) && NoZero(buf[at + 1..sync])
    requires Stands(buf, at, [0, 5]) && Stands(buf, sync, PREAMBLE)
    ensures Events(buf) == [Overflow]
  {
    hide Stands, SyncPoint, SyncEvents, EventsFrom, SyncsAt, NoZero;
    PreambleSyncs(buf, sync);
    JunkSkipped(buf, at + 1, sync);
    StandsInside(buf, at, [0, 5]);
    ExtensionReads(buf, at, CLEARED, OverflowPiece);
    OverflowFound(buf, at);
    JunkBefore(buf, 0, at);
  }

  lemma OverflowFound(buf: seq<byte>, at: nat)
    requires at < |buf| && ExtensionPacket(buf, at, CLEARED) == Packet(2, [Overflow], CLEARED) && buf[at] == 0
    ensures SyncEvents(buf, at) == [Overflow] + SyncEvents(buf, at + 1) && SyncPoint(buf, at) == SyncPoint(buf, at + 1)
  {
    hide ExtensionPacket, TraceInfoEnd;
  }

  lemma {:induction false} JunkBefore(buf: seq<byte>, i: nat, at: nat)
    requires i <= at <= |buf| && NoZero(buf[i..at])
    ensures SyncPoint(buf, i) == SyncPoint(buf, at) && SyncEvents(buf, i) == SyncEvents(buf, at)
    decreases at - i
  {
    hide TraceInfoEnd, ExtensionPacket;
    if i < at {
      assert buf[i..at][0] == buf[i] != 0;
      assert buf[i + 1..at] == buf[i..at][1..];
      JunkBefore(buf, i + 1, at);
    }
  }

  // ---------- a compact writer ----------

  predicate Writable(e: Event) {
    (e.Branches? && e.atoms != []) || (e.Address? && e.address % 2 == 0) || e.Exception?
  }

  /** How many atoms E the string starts with, counting no more than max. */
  function LeadingE(s: seq<Atom>, max: nat): (n: nat)
    ensures n <= |s| && n <= max && s[..n] == Run(n)
    ensures n < |s| && n < max ==> s[n] == N
  {
    if s == [] || max == 0 || s[0] == N then 0
    else
      var n := LeadingE(s[1..], max - 1);
      assert s[..n + 1] == [E] + s[1..][..n] && Run(n + 1) == [E] + Run(n);
      n + 1
  }

  /** The header of a packet for the first atoms of a string: a run if there is one, else up to three atoms. */
  function Header(s: seq<Atom>): byte
    requires s != []
  {
    var run := LeadingE(s, 23);
    if run >= 3 && |s| > run then (if s[run] == E then 0xC0 else 0xE0) + run - 3
    else if run >= 4 then 0xC0 + run - 4
    else if |s| >= 3 then 0xF8 + AtomBit(s[0]) + 2 * AtomBit(s[1]) + 4 * AtomBit(s[2])
    else if |s| == 2 then 0xD8 + AtomBit(s[0]) + 2 * AtomBit(s[1])
    else 0xF6 + AtomBit(s[0])
  }

  lemma HeaderTakes(s: seq<Atom>)
    requires s != []
    ensures IsAtomHeader(Header(s)) && 0 < |AtomsOf(Header(s))| <= |s|
    ensures AtomsOf(Header(s)) == s[..|AtomsOf(Header(s))|]
  {
    hide AtomsOf, AtomLength, AtomMap, Packed;
    var run, c := LeadingE(s, 23), Header(s);
    if run >= 3 && |s| > run {
      Format6Atoms(c);
      assert s[..run + 1] == s[..run] + [s[run]];
    } else if run >= 4 {
      Format6Atoms(c);
      assert Run(run) == Run(run - 1) + [E];
    } else if |s| >= 3 {
      Format3Atoms(s[0], s[1], s[2]);
      assert s[..3] == [s[0], s[1], s[2]];
    } else if |s| == 2 {
      Format2Atoms(s[0], s[1]);
      assert s == [s[0], s[1]];
    } else {
      Format1Atoms(s[0]);
      assert s == [s[0]];
    }
  }

  lemma Format1Atoms(a: Atom)
    ensures AtomsOf(0xF6 + AtomBit(a)) == [a]
  {
    Packed3(a, N, N);
    RowUnpacks(0xF6 + AtomBit(a), [a]);
  }

  lemma Format2Atoms(a: Atom, b: Atom)
    ensures AtomsOf(0xD8 + AtomBit(a) + 2 * AtomBit(b)) == [a, b]
  {
    Packed3(a, b, N);
    RowUnpacks(0xD8 + AtomBit(a) + 2 * AtomBit(b), [a, b]);
  }

  lemma Format3Atoms(a: Atom, b: Atom, c: Atom)
    ensures AtomsOf(0xF8 + AtomBit(a) + 2 * AtomBit(b) + 4 * AtomBit(c)) == [a, b, c]
  {
    Packed3(a, b, c);
    RowUnpacks(0xF8 + AtomBit(a) + 2 * AtomBit(b) + 4 * AtomBit(c), [a, b, c]);
  }

  function AtomPieces(s: seq<Atom>): seq<Piece>
    decreases |s|
  {
    if s == [] then []
    else
      HeaderTakes(s);
      [AtomPiece(Header(s))] + AtomPieces(s[|AtomsOf(Header(s))|..])
  }

  /** The shortest form that can express the address. */
  function BestForm(a: u64, r: Registers): (form: Form)
    ensures a % 2 == 0 ==> Expresses(form, a, r)
  {
    if a == r.a0 then Again(0)
    else if a == r.a1 then Again(1)
    else if a == r.a2 then Again(2)
    else if Expresses(Short, a, r) then Short
    else if Expresses(ShortIs1, a, r) then ShortIs1
    else if Expresses(Middle, a, r) then Middle
    else if Expresses(LowHalf, a, r) then LowHalf
    else Full
  }

  function Pieces(e: Event, r: Registers): seq<Piece>
    requires Writable(e)
  {
    match e
    case Branches(s) => AtomPieces(s)
    case Address(a) => [AddressPiece(a, BestForm(a, r))]
    case Exception => [ExceptionPiece(1, [])]
  }

  function AfterEvent(e: Event, r: Registers): Registers {
    if e.Address? then Shifted(r, e.address) else r
  }

  function Compact(es: seq<Event>, r: Registers): seq<Piece>
    requires forall e | e in es :: Writable(e)
  {
    if es == [] then [] else Pieces(es[0], r) + Compact(es[1..], AfterEvent(es[0], r))
  }

  lemma {:induction false} AtomPiecesFit(s: seq<Atom>, rest: seq<Piece>, r: Registers)
    requires Fits(rest, r)
    ensures Fits(AtomPieces(s) + rest, r)
    decreases |s|
  {
    hide AtomsOf, Header;
    if s == [] {
      assert AtomPieces(s) + rest == rest;
    } else {
      HeaderTakes(s);
      var t := s[|AtomsOf(Header(s))|..];
      AtomPiecesFit(t, rest, r);
      assert (AtomPieces(s) + rest)[1..] == AtomPieces(t) + rest;
    }
  }

  lemma {:induction false} CompactFits(es: seq<Event>, r: Registers)
    requires forall e | e in es :: Writable(e)
    ensures Fits(Compact(es, r), r)
  {
    hide AtomPieces, Shifted;
    if es != [] {
      var e, rest := es[0], Compact(es[1..], AfterEvent(es[0], r));
      CompactFits(es[1..], AfterEvent(e, r));
      if e.Branches? {
        AtomPiecesFit(e.atoms, rest, r);
      } else {
        assert (Pieces(e, r) + rest)[0] == Pieces(e, r)[0] && (Pieces(e, r) + rest)[1..] == rest;
      }
    }
  }

  lemma {:induction false} MeaningsConcat(ps: seq<Piece>, qs: seq<Piece>)
    ensures Meanings(ps + qs) == Meanings(ps) + Meanings(qs)
  {
    hide Meaning;
    if ps == [] {
      assert ps + qs == qs;
    } else {
      assert (ps + qs)[1..] == ps[1..] + qs;
      MeaningsConcat(ps[1..], qs);
    }
  }

  /** However atoms are packed, the walk is that of all of them at once. */
  lemma {:induction false} AtomsWritten(p: Program, w: Walk, s: seq<Atom>)
    requires s != []
    ensures Walked(p, w, Meanings(AtomPieces(s))) == Next(p, w, Branches(s))
    decreases |s|
  {
    hide AtomsOf, Header;
    HeaderTakes(s);
    var a := AtomsOf(Header(s));
    var t := s[|a|..];
    assert AtomPieces(s) == [AtomPiece(Header(s))] + AtomPieces(t);
    MeaningsConcat([AtomPiece(Header(s))], AtomPieces(t));
    assert Meanings([AtomPiece(Header(s))]) == [Branches(a)];
    WalkedConcat(p, w, [Branches(a)], Meanings(AtomPieces(t)));
    assert s == a + t;
    if t != [] {
      AtomsWritten(p, Next(p, w, Branches(a)), t);
      assert w.pending + a + t == w.pending + s;
    }
  }

  lemma {:induction false} CompactWalks(p: Program, w: Walk, es: seq<Event>, r: Registers)
    requires forall e | e in es :: Writable(e)
    ensures Walked(p, w, Meanings(Compact(es, r))) == Walked(p, w, es)
    decreases |es|
  {
    hide AtomPieces, Next, Shifted;
    if es != [] {
      var e, rest := es[0], Compact(es[1..], AfterEvent(es[0], r));
      MeaningsConcat(Pieces(e, r), rest);
      WalkedConcat(p, w, Meanings(Pieces(e, r)), Meanings(rest));
      if e.Branches? {
        AtomsWritten(p, w, e.atoms);
      } else {
        assert Meanings(Pieces(e, r)) == [e];
      }
      CompactWalks(p, Next(p, w, e), es[1..], AfterEvent(e, r));
    }
  }

  /** Every sequence of branches, even addresses and exceptions survives being written compactly and decoded. */
  lemma CompactTraceDecodes(p: Program, es: seq<Event>)
    requires forall e | e in es :: Writable(e)
    ensures Fits(Compact(es, CLEARED), CLEARED)
    ensures Walked(p, START, Events(PREAMBLE + Trace(Compact(es, CLEARED)))) == Walked(p, START, es)
  {
    hide Compact, Events, Trace, Fits, Meanings;
    CompactFits(es, CLEARED);
    var ps := Compact(es, CLEARED);
    WrittenTraceDecodes([], ps, []);
    assert [] + PREAMBLE + Trace(ps) + [] == PREAMBLE + Trace(ps);
    CompactWalks(p, START, es, CLEARED);
  }
}
