/**
  The tracer: the globals that the trace decoder updates packet by packet, and
  the coverage map. The invariant says that after any events they hold what the
  walk over those events gives.
 */
module Tracer {
  import opened Bytes
  import opened Words
  import opened Atoms
  import opened AtomHash
  import opened TraceEvents

  datatype StreamState = Reading | Syncing | InSync | Decoding

  /** The three address registers of the stream. */
  datatype Registers = Registers(a0: u64, a1: u64, a2: u64)

  const CLEARED := Registers(0, 0, 0)

  /** Register 0 takes the new address, the others move up. */
  function Shifted(r: Registers, address: u64): Registers { Registers(address, r.a0, r.a1) }

  function CountBranches(edges: seq<Edge>): nat {
    if edges == [] then 0 else CountBranches(edges[..|edges| - 1]) + |edges[|edges| - 1].atoms| + 1
  }

  lemma CountOneMore(edges: seq<Edge>, e: Edge)
    ensures CountBranches(edges + [e]) == CountBranches(edges) + |e.atoms| + 1
  {
    assert (edges + [e])[..|edges|] == edges;
  }

  class Tracer {
    const program: Program
    const traceBits: array<byte>
    var state: StreamState
    var registers: Registers
    var hash: u64
    var entryFlag: bool
    var branchFlag: bool
    var fromException: bool
    var irqAddr: u64
    var atomInSlide: nat
    var preBasicBlock: u64
    var branchNums: nat
    var overflowNums: nat
    var unsupported: bool        // a packet outside this model was met
    ghost var start: seq<byte>   // the coverage map before the run
    ghost var events: seq<Event> // what the decoder reported so far

    ghost function Walk(): Walk
      reads `events
    {
      Walked(program, START, events)
    }

    /** The fields hold what is left of the walk. */
    ghost predicate Mirrors(w: Walk)
      reads this
    {
      && hash == (if program.byBlock then 0 else Hash(w.pending))
      && entryFlag == w.entered
      && branchFlag == EndsTaken(w.pending)
      && fromException == w.interrupted
      && irqAddr == w.resume
      && atomInSlide == |w.pending| + 1
      && preBasicBlock == Half(program, w.edges)
      && branchNums == CountBranches(w.edges)
    }

    ghost predicate Holds(w: Walk)
      reads this, traceBits
    {
      && traceBits.Length == MAP_SIZE && |start| == MAP_SIZE
      && Mirrors(w)
      && traceBits[..] == Recorded(start, Cells(program, w.edges))
      && (overflowNums > 0 <==> Overflow in events)
      && (unsupported <==> Unsupported in events)
    }

    ghost predicate Valid()
      reads this, traceBits
    {
      Holds(Walk())
    }

    /** The walk with the entry flag already updated for an address. */
    ghost function Entering(address: u64): Walk
      reads this
    {
      Walk().(entered := Walk().entered || address == program.mainEntry)
    }

    /** What every decoding step keeps. */
    twostate predicate SameRun()
      reads this
    {
      start == old(start) && state == old(state)
    }

    constructor (program: Program, map0: seq<byte>)
      requires |map0| == MAP_SIZE
      ensures Valid() && events == [] && start == map0 && registers == CLEARED && state == Reading
      ensures fresh(traceBits)
    {
      this.program := program;
      traceBits := new byte[MAP_SIZE](i requires 0 <= i < MAP_SIZE => map0[i]);
      state, registers := Reading, CLEARED;
      hash, entryFlag, branchFlag, fromException, irqAddr := 0, false, false, false, 0;
      atomInSlide, preBasicBlock, branchNums, overflowNums, unsupported := 1, 0, 0, 0, false;
      start, events := map0, [];
      new;
      RecordedNothing(start);
      assert traceBits[..] == map0;
    }

    /** The location of an edge that ends at this address. */
    method Locate(address: u64) returns (location: u64)
      requires Mirrors(Entering(address))
      ensures location == Location(program, Edge(address, Walk().pending))
    {
      hide Hash, Walked;
      if program.byBlock {
        var n := atomInSlide;
        if n > 4 { n := 5; }
        location := (address + n - 1) % M64;
      } else {
        location := (address + hash % M63) % M64;
      }
    }

    /** One count in the cell of a location. */
    method Count(location: u64)
      requires traceBits.Length == MAP_SIZE
      modifies traceBits
      ensures var c := Cell(location, preBasicBlock);
              traceBits[..] == old(traceBits[..])[c := Tick(old(traceBits[c]))]
    {
      XorLow16(location, preBasicBlock);
      var index := Xor(location, preBasicBlock) % MAP_SIZE;
      traceBits[index] := Tick(traceBits[index]);
    }

    /** The fields after an edge. */
    method Restart(location: u64)
      modifies `hash, `atomInSlide, `branchFlag, `irqAddr, `preBasicBlock, `branchNums
      ensures hash == 0 && atomInSlide == 1 && !branchFlag && irqAddr == 0 && preBasicBlock == location / 2
      ensures branchNums == old(branchNums) + old(atomInSlide)
    {
      branchNums := branchNums + atomInSlide;
      preBasicBlock := location / 2;
      hash := 0;
      atomInSlide := 1;
      branchFlag := false;
      irqAddr := 0;
    }

    /** Records an event that the fields already show. */
    ghost method Report(e: Event)
      modifies `events
      ensures events == old(events) + [e]
      ensures Walk() == Next(program, old(Walk()), e)
    {
      WalkedOne(program, START, events, e);
      events := events + [e];
    }

    /** The address that ends an edge. */
    method Accept(address: u64)
      requires Holds(Entering(address)) && entryFlag && branchFlag && program.textStart <= address <= program.textEnd
      requires !(fromException && irqAddr == 0) && !(fromException && irqAddr == address)
      modifies this, traceBits
      ensures Valid() && SameRun() && registers == old(registers)
      ensures events == old(events) + [Address(address)]
    {
      hide Walked, Recorded, Location, Cell, Cells, Half, Next, Visit, CountBranches, Hash;
      Accepted(program, Walk(), address);
      ghost var w, e := Walk(), Edge(address, Walk().pending);
      var location := Locate(address);
      Count(location);
      Restart(location);
      Report(Address(address));
      EdgeAdded(program, start, w.edges, e);
    }

    /** An address packet was decoded. */
    method TracerAddress(address: u64)
      requires Valid()
      modifies this, traceBits
      ensures Valid() && SameRun() && registers == old(registers)
      ensures events == old(events) + [Address(address)]
    {
      hide Walked, Recorded, Hash, Location, Cell, Cells, Half, CountBranches;
      if address == program.mainEntry { entryFlag := true; }
      if fromException && irqAddr == 0 {
        irqAddr := address;
        Report(Address(address));
        return;
      }
      if entryFlag && branchFlag && program.textStart <= address <= program.textEnd {
        if fromException && irqAddr == address {
          fromException := false;
          irqAddr := 0;
          Report(Address(address));
          return;
        }
        Accept(address);
      } else {
        Report(Address(address));
      }
    }

    /** An overflow packet was decoded. */
    method TracerOverflow()
      requires Valid()
      modifies this
      ensures Valid() && SameRun() && registers == old(registers)
      ensures events == old(events) + [Overflow]
    {
      hide Walked, Recorded, Hash, Cells, Half;
      overflowNums := overflowNums + 1;
      Report(Overflow);
    }

    /** An exception packet was decoded. */
    method EnterException()
      requires Valid()
      modifies this
      ensures Valid() && SameRun() && registers == old(registers)
      ensures events == old(events) + [Exception]
    {
      hide Walked, Recorded, Hash, Cells, Half;
      fromException := true;
      Report(Exception);
    }

    /** A packet outside this model was met. */
    method Reject()
      requires Valid()
      modifies this
      ensures Valid() && SameRun() && registers == old(registers)
      ensures events == old(events) + [Unsupported]
    {
      hide Walked, Recorded, Hash, Cells, Half;
      unsupported := true;
      Report(Unsupported);
    }

    /** The fast path: an atom packet goes through the tables. */
    method AtomPacket(c: byte)
      requires Valid() && IsAtomHeader(c)
      modifies this
      ensures Valid() && SameRun() && registers == old(registers)
      ensures events == old(events) + [Branches(AtomsOf(c))]
    {
      hide Walked, Recorded, Hash, Cells, Half, CountBranches, Visit;
      hide AtomsOf, AtomLength, AtomMap, AtomFlag, EndsTaken, Fold, Unpacked;
      ghost var pending := Walk().pending;
      if entryFlag {
        fromException := false;
        irqAddr := 0;
        var len, serial := AtomLength(c), AtomMap(c);
        branchFlag := AtomFlag(c) == 1;
        atomInSlide := atomInSlide + len;
        if !program.byBlock { hash := Sdbm(hash, serial, len); }
      }
      TablesPush(pending, c);
      Report(Branches(AtomsOf(c)));
    }
  }

  /** What the three tables do to the hash, the flag and the count is what the atoms do. */
  lemma TablesPush(pending: seq<Atom>, c: byte)
    requires IsAtomHeader(c)
    ensures Fold(Hash(pending), Unpacked(AtomMap(c), AtomLength(c))) == Hash(pending + AtomsOf(c))
    ensures EndsTaken(pending + AtomsOf(c)) == (AtomFlag(c) == 1)
    ensures |pending + AtomsOf(c)| == |pending| + AtomLength(c)
  {
    hide AtomMap, AtomLength, AtomFlag, Unpacked, Fold;
    FoldConcat(0, pending, AtomsOf(c));
    FlagIsLastAtom(c);
  }

  /** The walk after an edge. */
  lemma Accepted(p: Program, w: Walk, a: u64)
    requires w.entered || a == p.mainEntry
    requires EndsTaken(w.pending) && p.textStart <= a <= p.textEnd
    requires !(w.interrupted && (w.resume == 0 || w.resume == a))
    ensures Next(p, w, Address(a)) == Walk(true, [], w.interrupted, 0, w.edges + [Edge(a, w.pending)])
    ensures Hash([]) == 0
  {}

  /** The map and the counters after one more edge. */
  lemma EdgeAdded(p: Program, start: seq<byte>, edges: seq<Edge>, e: Edge)
    requires |start| == MAP_SIZE
    ensures var c := Cell(Location(p, e), Half(p, edges));
            var was := Recorded(start, Cells(p, edges));
            Recorded(start, Cells(p, edges + [e])) == was[c := Tick(was[c])]
    ensures Half(p, edges + [e]) == Location(p, e) / 2
    ensures CountBranches(edges + [e]) == CountBranches(edges) + |e.atoms| + 1
  {
    CellsOneMore(p, edges, e);
    RecordedOneMore(start, Cells(p, edges), Cell(Location(p, e), Half(p, edges)));
    CountOneMore(edges, e);
  }
}
