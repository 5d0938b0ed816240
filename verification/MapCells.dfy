/** What a map cell tells about an edge when the edge is hashed: exactly which branches share a cell. */
module MapCells {
  import opened Bytes
  import opened Words
  import opened Atoms
  import opened AtomHash
  import opened TraceEvents

  /** After the same predecessor two edges share a cell if and only if address plus hash agree in sixteen bits. */
  lemma SameCell(p: Program, e: Edge, f: Edge, half: u64)
    requires !p.byBlock
    ensures Cell(Location(p, e), half) == Cell(Location(p, f), half) <==>
            (e.address + Hash(e.atoms)) % MAP_SIZE == (f.address + Hash(f.atoms)) % MAP_SIZE
  {
    hide Cell, Location, Hash;
    LowLocation(p, e);
    LowLocation(p, f);
    CellIsLowBits(Location(p, e), half);
    CellIsLowBits(Location(p, f), half);
    XorCancels(Location(p, e) % MAP_SIZE, half % MAP_SIZE);
    XorCancels(Location(p, f) % MAP_SIZE, half % MAP_SIZE);
  }

  lemma CellIsLowBits(location: u64, half: u64)
    ensures Cell(location, half) == Xor(location % MAP_SIZE, half % MAP_SIZE)
  {
    hide Xor;
  }

  /** The cleared bit of the hash and the wrap-around of the sum are above the sixteen bits. */
  lemma LowLocation(p: Program, e: Edge)
    requires !p.byBlock
    ensures Location(p, e) % MAP_SIZE == (e.address + Hash(e.atoms)) % MAP_SIZE
  {
    hide Hash;
    var h := Hash(e.atoms);
    LowBitsOf(e.address + h % M63);
    LowBitsOf(h);
    LowBitsOfSum(e.address, h % M63, h);
  }

  lemma LowBitsOfSum(x: nat, h: nat, k: nat)
    ensures (x + h) % MAP_SIZE == (x + k) % MAP_SIZE <==> h % MAP_SIZE == k % MAP_SIZE
  {
    var q, r := (x + h) / MAP_SIZE - (x + k) / MAP_SIZE, h / MAP_SIZE - k / MAP_SIZE;
    if h % MAP_SIZE == k % MAP_SIZE {
      SameLowBits(x + h, x + k, r);
    } else if (x + h) % MAP_SIZE == (x + k) % MAP_SIZE {
      SameLowBits(h, k, q);
    }
  }

  /** The cell of an edge to an address along these branches. */
  function CellOf(p: Program, address: u64, half: u64, s: seq<Atom>): cell {
    Cell(Location(p, Edge(address, s)), half)
  }

  /** To one address, from one predecessor: branches share a cell if and only if they share sixteen bits. */
  lemma SameAddressCells(p: Program, address: u64, half: u64, a: seq<Atom>, b: seq<Atom>)
    requires !p.byBlock
    ensures CellOf(p, address, half, a) == CellOf(p, address, half, b) <==>
            Hash(a) % MAP_SIZE == Hash(b) % MAP_SIZE
  {
    hide Cell, Location, Hash;
    SameCell(p, Edge(address, a), Edge(address, b), half);
    LowBitsOfSum(address, Hash(a), Hash(b));
  }

  /** Up to thirteen branches: two edges share a cell if and only if they differ in leading N atoms only. */
  lemma BranchesAndCells(p: Program, address: u64, half: u64, a: seq<Atom>, b: seq<Atom>)
    requires !p.byBlock && EndsTaken(a) && EndsTaken(b) && |a| <= 13 && |b| <= 13
    ensures CellOf(p, address, half, a) == CellOf(p, address, half, b) <==> FromFirstE(a) == FromFirstE(b)
    ensures |a| == |b| ==> (CellOf(p, address, half, a) == CellOf(p, address, half, b) <==> a == b)
  {
    hide CellOf, Hash, FromFirstE;
    SameAddressCells(p, address, half, a, b);
    TakenLowBitsShared(a, b);
    if |a| == |b| && FromFirstE(a) == FromFirstE(b) { SuffixOfSameLength(a, b); }
  }

  /** Edges of one length up to n have different cells unless they took the same branches. */
  ghost predicate CellsTellApart(p: Program, address: u64, half: u64, n: nat) {
    forall a, b | EndsTaken(a) && EndsTaken(b) && |a| == |b| <= n && a != b ::
      CellOf(p, address, half, a) != CellOf(p, address, half, b)
  }

  /** Thirteen is exactly the limit. */
  lemma ThirteenIsTheLimit(p: Program, address: u64, half: u64, n: nat)
    requires !p.byBlock
    ensures CellsTellApart(p, address, half, n) <==> n <= 13
  {
    hide CellOf, Hash, EndsTaken;
    if n <= 13 {
      forall a, b | EndsTaken(a) && EndsTaken(b) && |a| == |b| <= n && a != b
        ensures CellOf(p, address, half, a) != CellOf(p, address, half, b)
      {
        BranchesAndCells(p, address, half, a, b);
      }
    } else {
      var a, b := LongerAtomsCollide(n);
      SameAddressCells(p, address, half, a, b);
    }
  }

  // ---------- basic blocks, and what comes before ----------

  /** In basic-block mode the number of branches stands for them, and four are as good as many. */
  lemma SameBlockCell(p: Program, e: Edge, f: Edge, half: u64)
    requires p.byBlock
    ensures Cell(Location(p, e), half) == Cell(Location(p, f), half) <==>
            (e.address + Min(|e.atoms|, 4)) % MAP_SIZE == (f.address + Min(|f.atoms|, 4)) % MAP_SIZE
  {
    hide Cell, Location;
    BlockLocation(p, e);
    BlockLocation(p, f);
    CellIsLowBits(Location(p, e), half);
    CellIsLowBits(Location(p, f), half);
    XorCancels(Location(p, e) % MAP_SIZE, half % MAP_SIZE);
    XorCancels(Location(p, f) % MAP_SIZE, half % MAP_SIZE);
  }

  lemma BlockLocation(p: Program, e: Edge)
    requires p.byBlock
    ensures Location(p, e) % MAP_SIZE == (e.address + Min(|e.atoms|, 4)) % MAP_SIZE
  {
    LowBitsOf(e.address + Min(|e.atoms|, 4));
  }

  /** The same edge twice in a row: two places in 2^17 fall on cell 0, because the location before is halved. */
  lemma RepeatedEdge(p: Program, edges: seq<Edge>, e: Edge)
    ensures Half(p, edges + [e]) == Location(p, e) / 2
    ensures Cell(Location(p, e), Half(p, edges + [e])) == 0 <==>
            Location(p, e) % 0x2_0000 == 0 || Location(p, e) % 0x2_0000 == 0x1_FFFF
  {
    hide Cell, Location;
    var x := Location(p, e);
    var low, half := x % MAP_SIZE, x / 2 % MAP_SIZE;
    CellIsLowBits(x, x / 2);
    XorCancels(low, half);
    XorSelf(low);
    XorSelf(half);
    XorCommutes(0, half);
    HalfEqual(x);
  }

  lemma HalfEqual(x: nat)
    ensures x % MAP_SIZE == x / 2 % MAP_SIZE <==> x % 0x2_0000 == 0 || x % 0x2_0000 == 0x1_FFFF
  {
    var y, k := x % 0x2_0000, x / 0x2_0000;
    assert x == k * 0x2_0000 + y;
    SameLowBits(x, y, 2 * k);
    assert x / 2 == k * 0x1_0000 + y / 2;
    SameLowBits(x / 2, y / 2, k);
  }

  // ---------- whole traces ----------

  /** The coverage map after a trace. */
  function MapAfter(p: Program, start: seq<byte>, es: seq<Event>): seq<byte>
    requires |start| == MAP_SIZE
  {
    Recorded(start, Cells(p, Walked(p, START, es).edges))
  }

  /** From the main function to an address along these branches. */
  function StraightTo(p: Program, address: u64, s: seq<Atom>): seq<Event> {
    [Address(p.mainEntry), Branches(s), Address(address)]
  }

  lemma StraightEdge(p: Program, address: u64, s: seq<Atom>)
    requires EndsTaken(s) && p.textStart <= address <= p.textEnd
    ensures Walked(p, START, StraightTo(p, address, s)).edges == [Edge(address, s)]
  {
    var es := StraightTo(p, address, s);
    var w := Next(p, START, es[0]);
    var v := Next(p, w, es[1]);
    assert es[1..] == [es[1], es[2]] && es[1..][1..] == [es[2]] && es[1..][1..][1..] == [];
    assert v.pending == s;
    assert Walked(p, v, [es[2]]) == Next(p, v, es[2]);
    assert Walked(p, w, es[1..]) == Walked(p, v, [es[2]]);
  }

  lemma StraightMap(p: Program, start: seq<byte>, address: u64, s: seq<Atom>)
    requires |start| == MAP_SIZE && EndsTaken(s) && p.textStart <= address <= p.textEnd
    ensures var c := CellOf(p, address, 0, s);
            MapAfter(p, start, StraightTo(p, address, s)) == start[c := Tick(start[c])]
  {
    hide Cell, Location, Walked, Recorded, Cells, StraightTo;
    StraightEdge(p, address, s);
    CellsOneMore(p, [], Edge(address, s));
    assert [] + [Edge(address, s)] == [Edge(address, s)];
    NoCells(p);
    assert [] + [CellOf(p, address, 0, s)] == [CellOf(p, address, 0, s)];
    RecordedOneMore(start, [], CellOf(p, address, 0, s));
    RecordedNothing(start);
  }

  lemma NoCells(p: Program)
    ensures Cells(p, []) == [] && Half(p, []) == 0
  {}

  /** Two such traces leave the same map if and only if their edges share a cell. */
  lemma StraightMaps(p: Program, start: seq<byte>, address: u64, a: seq<Atom>, b: seq<Atom>)
    requires |start| == MAP_SIZE && EndsTaken(a) && EndsTaken(b) && p.textStart <= address <= p.textEnd
    ensures MapAfter(p, start, StraightTo(p, address, a)) == MapAfter(p, start, StraightTo(p, address, b)) <==>
            CellOf(p, address, 0, a) == CellOf(p, address, 0, b)
  {
    hide CellOf, MapAfter, StraightTo;
    StraightMap(p, start, address, a);
    StraightMap(p, start, address, b);
    var c, d := CellOf(p, address, 0, a), CellOf(p, address, 0, b);
    assert start[c := Tick(start[c])][c] == Tick(start[c]) != start[c];
    if c != d { assert start[d := Tick(start[d])][c] == start[c]; }
  }

  /** For every length from fourteen on, two different traces of one edge leave the same map. */
  lemma UnseenBranches(p: Program, start: seq<byte>, address: u64, n: nat) returns (a: seq<Atom>, b: seq<Atom>)
    requires !p.byBlock && |start| == MAP_SIZE && p.textStart <= address <= p.textEnd && n >= 14
    ensures |a| == |b| == n && a != b && EndsTaken(a) && EndsTaken(b)
    ensures MapAfter(p, start, StraightTo(p, address, a)) == MapAfter(p, start, StraightTo(p, address, b))
  {
    hide CellOf, MapAfter, StraightTo, Hash, EndsTaken;
    a, b := LongerAtomsCollide(n);
    SameAddressCells(p, address, 0, a, b);
    StraightMaps(p, start, address, a, b);
  }
}
