/**
  What a branch trace means. The events of a trace are walked once, keeping the
  addresses that end an edge and the atoms seen on the way; each edge has a
  location, two consecutive locations give a map cell, and the coverage map
  counts the cells modulo 256.
 */
module TraceEvents {
  import opened Bytes
  import opened Words
  import opened Atoms
  import opened AtomHash

  type cell = x: int | 0 <= x < MAP_SIZE witness 0

  /** The traced program; byBlock selects basic-block mode instead of atom hashes. */
  datatype Program = Program(mainEntry: u64, textStart: u64, textEnd: u64, byBlock: bool)

  datatype Event =
    | Branches(atoms: seq<Atom>)
    | Address(address: u64)
    | Exception
    | Overflow
    | Unsupported

  /** An accepted address and the atoms since the accepted address before it. */
  datatype Edge = Edge(address: u64, atoms: seq<Atom>)

  /**
    Where a walk stands: whether the main function was entered, the atoms since
    the last edge, whether an exception is being handled, and the address it
    interrupted (0 until that address is known).
   */
  datatype Walk = Walk(entered: bool, pending: seq<Atom>, interrupted: bool, resume: u64, edges: seq<Edge>)

  const START: Walk := Walk(false, [], false, 0, [])

  function Visit(p: Program, w: Walk, a: u64): Walk {
    var entered := w.entered || a == p.mainEntry;
    if w.interrupted && w.resume == 0 then
      w.(entered := entered, resume := a)
    else if !(entered && EndsTaken(w.pending) && p.textStart <= a <= p.textEnd) then
      w.(entered := entered)
    else if w.interrupted && w.resume == a then
      w.(entered := entered, interrupted := false, resume := 0)
    else
      Walk(entered, [], w.interrupted, 0, w.edges + [Edge(a, w.pending)])
  }

  function Next(p: Program, w: Walk, e: Event): Walk {
    match e
    case Branches(s) =>
      if w.entered then w.(pending := w.pending + s, interrupted := false, resume := 0) else w
    case Address(a) => Visit(p, w, a)
    case Exception => w.(interrupted := true)
    case Overflow => w
    case Unsupported => w
  }

  function Walked(p: Program, w: Walk, es: seq<Event>): Walk
    decreases es
  {
    if es == [] then w else Walked(p, Next(p, w, es[0]), es[1..])
  }

  lemma {:induction false} WalkedConcat(p: Program, w: Walk, a: seq<Event>, b: seq<Event>)
    ensures Walked(p, w, a + b) == Walked(p, Walked(p, w, a), b)
    decreases a
  {
    if a == [] {
      assert a + b == b;
    } else {
      assert (a + b)[1..] == a[1..] + b;
      WalkedConcat(p, Next(p, w, a[0]), a[1..], b);
    }
  }

  lemma WalkedOne(p: Program, w: Walk, a: seq<Event>, e: Event)
    ensures Walked(p, w, a + [e]) == Next(p, Walked(p, w, a), e)
  {
    WalkedConcat(p, w, a, [e]);
  }

  // ---------- edges and the map ----------

  function Location(p: Program, e: Edge): u64 {
    if p.byBlock then
      (e.address + Min(|e.atoms| + 1, 5) - 1) % M64
    else
      (e.address + Hash(e.atoms) % M63) % M64
  }

  /** The cell of an edge: its location against half of the location before it. */
  function Cell(location: u64, half: u64): cell {
    XorLow16(location, half);
    Xor(location % MAP_SIZE, half % MAP_SIZE)
  }

  function Half(p: Program, edges: seq<Edge>): u64 {
    if edges == [] then 0 else Location(p, edges[|edges| - 1]) / 2
  }

  function Cells(p: Program, edges: seq<Edge>): seq<cell> {
    seq(|edges|, i requires 0 <= i < |edges| => Cell(Location(p, edges[i]), Half(p, edges[..i])))
  }

  lemma CellsOneMore(p: Program, edges: seq<Edge>, e: Edge)
    ensures Cells(p, edges + [e]) == Cells(p, edges) + [Cell(Location(p, e), Half(p, edges))]
  {
    var more := edges + [e];
    assert more[..|edges|] == edges;
    forall i | 0 <= i < |edges|
      ensures more[..i] == edges[..i]
    {}
  }

  /** The start map plus the histogram of the cells. */
  function Recorded(start: seq<byte>, cells: seq<cell>): (map': seq<byte>)
    requires |start| == MAP_SIZE
    ensures |map'| == MAP_SIZE
  {
    seq(MAP_SIZE, c requires 0 <= c < MAP_SIZE => (start[c] + multiset(cells)[c]) % 256)
  }

  /** A count kept in one byte, plus one. */
  function Tick(count: byte): byte { (count + 1) % 256 }

  lemma RecordedOneMore(start: seq<byte>, cells: seq<cell>, c: cell)
    requires |start| == MAP_SIZE
    ensures Recorded(start, cells + [c]) == Recorded(start, cells)[c := Tick(Recorded(start, cells)[c])]
  {
    var was, now := Recorded(start, cells), Recorded(start, cells + [c]);
    assert multiset(cells + [c]) == multiset(cells) + multiset{c};
    TickAfter(start[c], multiset(cells)[c]);
    assert now == was[c := Tick(was[c])];
  }

  lemma TickAfter(b: byte, n: nat)
    ensures (b + (n + 1)) % 256 == Tick((b + n) % 256)
  {}

  /** Nothing is recorded without an edge. */
  lemma RecordedNothing(start: seq<byte>)
    requires |start| == MAP_SIZE
    ensures Recorded(start, []) == start
  {}

  // ---------- what the meaning depends on ----------

  /** Cutting a run of atoms into packets in another place changes nothing. */
  lemma PacketsMayBeCutAnywhere(p: Program, w: Walk, before: seq<Event>, a: seq<Atom>, b: seq<Atom>, after: seq<Event>)
    ensures Walked(p, w, before + [Branches(a), Branches(b)] + after)
         == Walked(p, w, before + [Branches(a + b)] + after)
  {
    var mid := Walked(p, w, before);
    var two, one := [Branches(a), Branches(b)], [Branches(a + b)];
    WalkedConcat(p, w, before + two, after);
    WalkedConcat(p, w, before, two);
    WalkedConcat(p, w, before + one, after);
    WalkedConcat(p, w, before, one);
    assert mid.pending + a + b == mid.pending + (a + b);
    assert two == [Branches(a)] + [Branches(b)];
    WalkedConcat(p, mid, [Branches(a)], [Branches(b)]);
  }

  /** All atoms of the edges, in order. */
  function Spent(edges: seq<Edge>): seq<Atom> {
    if edges == [] then [] else Spent(edges[..|edges| - 1]) + edges[|edges| - 1].atoms
  }

  /** All atoms of the events after the main function was entered. */
  function AtomsAfterEntry(p: Program, entered: bool, es: seq<Event>): seq<Atom>
    decreases es
  {
    if es == [] then []
    else match es[0]
      case Branches(s) => (if entered then s else []) + AtomsAfterEntry(p, entered, es[1..])
      case Address(a) => AtomsAfterEntry(p, entered || a == p.mainEntry, es[1..])
      case _ => AtomsAfterEntry(p, entered, es[1..])
  }

  lemma SpentOneMore(edges: seq<Edge>, e: Edge)
    ensures Spent(edges + [e]) == Spent(edges) + e.atoms
  {
    assert (edges + [e])[..|edges|] == edges;
  }

  lemma NextConserves(p: Program, w: Walk, e: Event)
    ensures e.Branches? ==>
      Spent(Next(p, w, e).edges) + Next(p, w, e).pending
        == Spent(w.edges) + w.pending + if w.entered then e.atoms else []
    ensures !e.Branches? ==> Spent(Next(p, w, e).edges) + Next(p, w, e).pending == Spent(w.edges) + w.pending
    ensures Next(p, w, e).entered == (w.entered || e == Address(p.mainEntry))
  {
    if e.Address? {
      SpentOneMore(w.edges, Edge(e.address, w.pending));
    }
  }

  /** Every atom after entry is charged to exactly one edge, or still waits for one, in trace order. */
  lemma {:induction false} AtomsAreConserved(p: Program, w: Walk, es: seq<Event>)
    ensures var z := Walked(p, w, es);
            Spent(z.edges) + z.pending == Spent(w.edges) + w.pending + AtomsAfterEntry(p, w.entered, es)
    decreases es
  {
    if es != [] {
      var w1 := Next(p, w, es[0]);
      NextConserves(p, w, es[0]);
      AtomsAreConserved(p, w1, es[1..]);
      var rest := AtomsAfterEntry(p, w1.entered, es[1..]);
      if es[0].Branches? && w.entered {
        assert Spent(w.edges) + w.pending + es[0].atoms + rest == Spent(w.edges) + w.pending + (es[0].atoms + rest);
      }
    }
  }

  /** An edge ends at an address inside the program, after a taken branch. */
  ghost predicate Proper(p: Program, e: Edge) {
    p.textStart <= e.address <= p.textEnd && EndsTaken(e.atoms)
  }

  lemma {:induction false} EdgesAreProper(p: Program, w: Walk, es: seq<Event>)
    requires forall e | e in w.edges :: Proper(p, e)
    ensures forall e | e in Walked(p, w, es).edges :: Proper(p, e)
    decreases es
  {
    if es != [] { EdgesAreProper(p, Next(p, w, es[0]), es[1..]); }
  }

  /** Until the main function is entered there is no edge. */
  lemma {:induction false} NoEdgeBeforeEntry(p: Program, w: Walk, es: seq<Event>)
    requires !w.entered && w.pending == [] && Address(p.mainEntry) !in es
    ensures Walked(p, w, es).edges == w.edges && !Walked(p, w, es).entered
    decreases es
  {
    if es != [] {
      NoEdgeBeforeEntry(p, Next(p, w, es[0]), es[1..]);
    }
  }

  // ---------- exceptions ----------

  /** Inside the program, with a taken branch pending: here an address makes an edge. */
  predicate AtEdge(p: Program, w: Walk, a: u64) {
    w.entered && !w.interrupted && w.resume == 0 && EndsTaken(w.pending) && p.textStart <= a <= p.textEnd
  }

  function Addresses(s: seq<u64>): seq<Event> {
    seq(|s|, i requires 0 <= i < |s| => Address(s[i]))
  }

  /** Without an exception the address makes an edge of all pending atoms. */
  lemma EdgeMade(p: Program, w: Walk, a: u64)
    requires AtEdge(p, w, a)
    ensures Next(p, w, Address(a)) == w.(pending := [], edges := w.edges + [Edge(a, w.pending)])
  {}

  /**
    An exception that interrupts the program at a, whatever addresses outside the
    program its handler goes through, and the return to a leave no mark: the
    branch taken before is still pending.
   */
  lemma {:induction false} InterruptionUnseen(p: Program, w: Walk, a: u64, handler: seq<u64>)
    requires AtEdge(p, w, a) && a != 0
    requires forall i | 0 <= i < |handler| :: !(p.textStart <= handler[i] <= p.textEnd)
    ensures Walked(p, w, [Exception, Address(a)] + Addresses(handler) + [Address(a)]) == w
  {
    var inside := w.(interrupted := true, resume := a);
    assert [Exception, Address(a)] == [Exception] + [Address(a)];
    WalkedConcat(p, w, [Exception, Address(a)] + Addresses(handler), [Address(a)]);
    WalkedConcat(p, w, [Exception, Address(a)], Addresses(handler));
    WalkedConcat(p, w, [Exception], [Address(a)]);
    assert Walked(p, w, [Exception, Address(a)]) == inside;
    HandlerUnseen(p, inside, handler);
    assert Walked(p, inside, [Address(a)]) == Next(p, inside, Address(a)) == w;
  }

  lemma {:induction false} HandlerUnseen(p: Program, w: Walk, handler: seq<u64>)
    requires w.entered && w.interrupted && w.resume != 0
    requires forall i | 0 <= i < |handler| :: !(p.textStart <= handler[i] <= p.textEnd)
    ensures Walked(p, w, Addresses(handler)) == w
  {
    if handler != [] {
      assert Addresses(handler)[1..] == Addresses(handler[1..]);
      HandlerUnseen(p, w, handler[1..]);
    }
  }

  /** Back at another address the branch gets its edge, and the next address is taken for a new interruption. */
  lemma InterruptionElsewhere(p: Program, w: Walk, a: u64, b: u64)
    requires AtEdge(p, w, b) && a != 0 && a != b
    ensures Walked(p, w, [Exception, Address(a), Address(b)])
         == w.(pending := [], interrupted := true, edges := w.edges + [Edge(b, w.pending)])
  {
    var one := Next(p, w, Exception);
    var two := Next(p, one, Address(a));
    var es := [Exception, Address(a), Address(b)];
    assert es[1..] == [Address(a), Address(b)] && es[1..][1..] == [Address(b)];
    assert Walked(p, two, [Address(b)]) == Next(p, two, Address(b));
    assert Walked(p, one, es[1..]) == Walked(p, two, [Address(b)]);
  }

  /** Branches end the interruption: from then on it is as if it had not been. */
  lemma InterruptionEnds(p: Program, w: Walk, a: u64, s: seq<Atom>)
    requires w.entered && !w.interrupted && w.resume == 0
    ensures Walked(p, w, [Exception, Address(a), Branches(s)]) == Next(p, w, Branches(s))
  {
    var one := Next(p, w, Exception);
    var two := Next(p, one, Address(a));
    var es := [Exception, Address(a), Branches(s)];
    assert es[1..] == [Address(a), Branches(s)] && es[1..][1..] == [Branches(s)];
    assert Walked(p, two, [Branches(s)]) == Next(p, two, Branches(s));
    assert Walked(p, one, es[1..]) == Walked(p, two, [Branches(s)]);
  }

  /** Nothing counts before the main function, and everything from there on. */
  lemma EntryStartsWalk(p: Program, s: seq<Atom>, t: seq<Atom>)
    ensures Walked(p, START, [Branches(s), Address(p.mainEntry), Branches(t)]) == START.(entered := true, pending := t)
  {
    var one := Next(p, START, Branches(s));
    var two := Next(p, one, Address(p.mainEntry));
    var es := [Branches(s), Address(p.mainEntry), Branches(t)];
    assert es[1..] == [Address(p.mainEntry), Branches(t)] && es[1..][1..] == [Branches(t)];
    assert Walked(p, two, [Branches(t)]) == Next(p, two, Branches(t));
    assert Walked(p, one, es[1..]) == Walked(p, two, [Branches(t)]);
    assert [] + t == t;
  }
}
