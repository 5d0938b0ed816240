/**
  CoreSight topologies as graphs of port-to-port wires. Hidden funnels and
  replicators stand for ports that several wires share; contracting them gives
  back the wires that were asked for.
 */
module TopologyGraph {
  import opened Bytes

  datatype LinkType = Atb | Cti | CoreTrace

  /** A link with its two ends; the ends on the many side of a hidden device carry no number. */
  datatype Wire<D> = Wire(master: D, masterPort: Option<nat>, slave: D, slavePort: Option<nat>, kind: LinkType)

  datatype Request<D> = Request(master: D, masterPort: nat, slave: D, slavePort: nat, kind: LinkType)

  /** The wires in order of creation, and which devices are hidden. */
  datatype Graph<D> = Graph(funnels: set<D>, replicators: set<D>, wires: seq<Wire<D>>)

  ghost predicate Hidden<D>(g: Graph<D>, d: D) {
    d in g.funnels || d in g.replicators
  }

  ghost predicate Out<D>(g: Graph<D>, d: D, i: nat) {
    i < |g.wires| && g.wires[i].master == d
  }

  ghost predicate In<D>(g: Graph<D>, d: D, i: nat) {
    i < |g.wires| && g.wires[i].slave == d
  }

  ghost predicate ShareSlavePort<D>(v: Wire<D>, w: Wire<D>) {
    v.kind == Atb && w.kind == Atb && v.slave == w.slave && v.slavePort.Some? && v.slavePort == w.slavePort
  }

  ghost predicate ShareMasterPort<D>(v: Wire<D>, w: Wire<D>) {
    v.kind == Atb && w.kind == Atb && v.master == w.master && v.masterPort.Some? && v.masterPort == w.masterPort
  }

  // ---------- the invariant ----------

  /** Every numbered port end carries at most one ATB wire. */
  ghost predicate PortsUnique<D>(g: Graph<D>) {
    && (forall i: nat, j: nat | i < j < |g.wires| :: !ShareSlavePort(g.wires[i], g.wires[j]))
    && (forall i: nat, j: nat | i < j < |g.wires| :: !ShareMasterPort(g.wires[i], g.wires[j]))
  }

  /** Only the many side of a hidden device is unnumbered, and hidden devices carry ATB only. */
  ghost predicate Numbered<D>(g: Graph<D>) {
    forall w | w in g.wires ::
      && (w.slavePort.None? <==> w.slave in g.funnels)
      && (w.masterPort.None? <==> w.master in g.replicators)
      && (w.kind != Atb ==> !Hidden(g, w.master) && !Hidden(g, w.slave))
  }

  /** A hidden funnel has exactly one output, from its port 0 to a numbered port of a visible device. */
  ghost predicate FunnelShape<D>(g: Graph<D>, f: D) {
    && (exists i: nat :: Out(g, f, i))
    && (forall i: nat, j: nat | Out(g, f, i) && Out(g, f, j) :: i == j)
    && (forall i: nat | Out(g, f, i) ::
         g.wires[i].masterPort == Some(0) && g.wires[i].slavePort.Some? && !Hidden(g, g.wires[i].slave))
  }

  /** A hidden replicator has exactly one input, from a numbered port of a visible device to its port 0. */
  ghost predicate ReplicatorShape<D>(g: Graph<D>, r: D) {
    && (exists i: nat :: In(g, r, i))
    && (forall i: nat, j: nat | In(g, r, i) && In(g, r, j) :: i == j)
    && (forall i: nat | In(g, r, i) ::
         g.wires[i].slavePort == Some(0) && g.wires[i].masterPort.Some? && !Hidden(g, g.wires[i].master))
  }

  ghost predicate Good<D>(g: Graph<D>) {
    && g.funnels !! g.replicators
    && PortsUnique(g)
    && Numbered(g)
    && (forall f | f in g.funnels :: FunnelShape(g, f))
    && (forall r | r in g.replicators :: ReplicatorShape(g, r))
  }

  // ---------- contraction ----------

  /** The port end behind a hidden funnel. */
  ghost function Feeds<D>(g: Graph<D>, f: D): (D, nat)
    requires FunnelShape(g, f)
  {
    var i: nat :| Out(g, f, i);
    (g.wires[i].slave, g.wires[i].slavePort.value)
  }

  /** The port end behind a hidden replicator. */
  ghost function FedBy<D>(g: Graph<D>, r: D): (D, nat)
    requires ReplicatorShape(g, r)
  {
    var i: nat :| In(g, r, i);
    (g.wires[i].master, g.wires[i].masterPort.value)
  }

  ghost function Source<D>(g: Graph<D>, d: D, port: Option<nat>): (D, nat)
    requires Good(g) && (port.None? ==> d in g.replicators)
  {
    if port.None? then FedBy(g, d) else (d, port.value)
  }

  ghost function Target<D>(g: Graph<D>, d: D, port: Option<nat>): (D, nat)
    requires Good(g) && (port.None? ==> d in g.funnels)
  {
    if port.None? then Feeds(g, d) else (d, port.value)
  }

  /** The single wire of a shared port; contraction drops it. */
  ghost predicate Internal<D>(g: Graph<D>, w: Wire<D>) {
    w.master in g.funnels || w.slave in g.replicators
  }

  ghost function Resolve<D>(g: Graph<D>, w: Wire<D>): Request<D>
    requires Good(g) && w in g.wires
  {
    var (m, mp) := Source(g, w.master, w.masterPort);
    var (s, sp) := Target(g, w.slave, w.slavePort);
    Request(m, mp, s, sp, w.kind)
  }

  ghost function Part<D>(g: Graph<D>, i: nat): seq<Request<D>>
    requires Good(g) && i < |g.wires|
  {
    if Internal(g, g.wires[i]) then [] else [Resolve(g, g.wires[i])]
  }

  /** What the first n wires stand for once hidden devices are contracted. */
  ghost function ContractTo<D>(g: Graph<D>, n: nat): seq<Request<D>>
    requires Good(g) && n <= |g.wires|
  {
    if n == 0 then [] else ContractTo(g, n - 1) + Part(g, n - 1)
  }

  ghost function Contract<D>(g: Graph<D>): seq<Request<D>>
    requires Good(g)
  {
    ContractTo(g, |g.wires|)
  }

  // ---------- the three ways the graph grows ----------

  function AddWire<D>(g: Graph<D>, w: Wire<D>): Graph<D> {
    g.(wires := g.wires + [w])
  }

  /** Wire i is re-pointed to the new hidden funnel f, which takes over the port. */
  function SplitSlave<D>(g: Graph<D>, i: nat, f: D): Graph<D>
    requires i < |g.wires|
  {
    var w := g.wires[i];
    Graph(g.funnels + {f}, g.replicators,
          g.wires[i := w.(slave := f, slavePort := None)] + [Wire(f, Some(0), w.slave, w.slavePort, Atb)])
  }

  /** Wire i now leaves from the new hidden replicator r, which takes over the port. */
  function SplitMaster<D>(g: Graph<D>, i: nat, r: D): Graph<D>
    requires i < |g.wires|
  {
    var w := g.wires[i];
    Graph(g.funnels, g.replicators + {r},
          g.wires[i := w.(master := r, masterPort := None)] + [Wire(w.master, w.masterPort, r, Some(0), Atb)])
  }

  ghost predicate Fresh<D>(g: Graph<D>, d: D) {
    !Hidden(g, d) && forall w | w in g.wires :: w.master != d && w.slave != d
  }

  /** What each hidden device of g stands for is the same in h. */
  ghost predicate SameEnds<D>(g: Graph<D>, h: Graph<D>)
    requires Good(g) && Good(h)
  {
    && g.funnels <= h.funnels && g.replicators <= h.replicators
    && (forall f | f in g.funnels :: Feeds(h, f) == Feeds(g, f))
    && (forall r | r in g.replicators :: FedBy(h, r) == FedBy(g, r))
  }

  lemma FeedsAt<D>(g: Graph<D>, f: D, i: nat)
    requires FunnelShape(g, f) && Out(g, f, i)
    ensures Feeds(g, f) == (g.wires[i].slave, g.wires[i].slavePort.value)
  {}

  lemma FedByAt<D>(g: Graph<D>, r: D, i: nat)
    requires ReplicatorShape(g, r) && In(g, r, i)
    ensures FedBy(g, r) == (g.wires[i].master, g.wires[i].masterPort.value)
  {}

  /** Contraction goes through wire by wire. */
  lemma {:induction false} ContractSame<D>(g: Graph<D>, h: Graph<D>, n: nat)
    requires Good(g) && Good(h) && n <= |g.wires| && n <= |h.wires|
    requires forall i: nat | i < n :: Part(g, i) == Part(h, i)
    ensures ContractTo(g, n) == ContractTo(h, n)
  {
    if n > 0 { ContractSame(g, h, n - 1); }
  }

  // ---------- splitting a slave port ----------

  ghost predicate CanSplitSlave<D>(g: Graph<D>, i: nat, f: D) {
    && i < |g.wires| && Fresh(g, f)
    && g.wires[i].kind == Atb && !Hidden(g, g.wires[i].slave) && g.wires[i].master !in g.funnels
  }

  lemma SplitSlavePorts<D>(g: Graph<D>, i: nat, f: D)
    requires Good(g) && CanSplitSlave(g, i, f)
    ensures PortsUnique(SplitSlave(g, i, f)) && Numbered(SplitSlave(g, i, f))
  {
    var h := SplitSlave(g, i, f);
    assert g.wires[i] in g.wires;
    assert forall k: nat | k < |g.wires| && k != i :: h.wires[k] == g.wires[k] && g.wires[k] in g.wires;
  }

  lemma SplitSlaveFunnel<D>(g: Graph<D>, i: nat, f: D, d: D)
    requires Good(g) && CanSplitSlave(g, i, f) && d in g.funnels
    ensures FunnelShape(SplitSlave(g, i, f), d) && Feeds(SplitSlave(g, i, f), d) == Feeds(g, d)
  {
    var h := SplitSlave(g, i, f);
    var k: nat :| Out(g, d, k);
    assert g.wires[k] in g.wires && Out(h, d, k);
    assert forall j: nat | Out(h, d, j) :: Out(g, d, j);
    FeedsAt(g, d, k);
    FeedsAt(h, d, k);
  }

  lemma SplitSlaveReplicator<D>(g: Graph<D>, i: nat, f: D, d: D)
    requires Good(g) && CanSplitSlave(g, i, f) && d in g.replicators
    ensures ReplicatorShape(SplitSlave(g, i, f), d) && FedBy(SplitSlave(g, i, f), d) == FedBy(g, d)
  {
    var h := SplitSlave(g, i, f);
    var k: nat :| In(g, d, k);
    assert g.wires[k] in g.wires && In(h, d, k);
    assert forall j: nat | In(h, d, j) :: In(g, d, j);
    FedByAt(g, d, k);
    FedByAt(h, d, k);
  }

  lemma SplitSlaveNew<D>(g: Graph<D>, i: nat, f: D)
    requires Good(g) && CanSplitSlave(g, i, f)
    ensures var h := SplitSlave(g, i, f);
            && FunnelShape(h, f) && g.wires[i].slavePort.Some?
            && Feeds(h, f) == (g.wires[i].slave, g.wires[i].slavePort.value)
  {
    var h := SplitSlave(g, i, f);
    assert g.wires[i] in g.wires;
    assert Out(h, f, |g.wires|);
    assert forall k: nat | k < |g.wires| :: g.wires[k] in g.wires && !Out(h, f, k);
    FeedsAt(h, f, |g.wires|);
  }

  /** Splitting keeps the graph well formed and contracts to the same wires. */
  lemma SplitSlaveGood<D>(g: Graph<D>, i: nat, f: D)
    requires Good(g) && CanSplitSlave(g, i, f)
    ensures var h := SplitSlave(g, i, f);
            && Good(h) && SameEnds(g, h) && Contract(h) == Contract(g)
            && g.wires[i].slavePort.Some? && Feeds(h, f) == (g.wires[i].slave, g.wires[i].slavePort.value)
  {
    var h := SplitSlave(g, i, f);
    SplitSlavePorts(g, i, f);
    forall d | d in g.funnels ensures FunnelShape(h, d) && Feeds(h, d) == Feeds(g, d) { SplitSlaveFunnel(g, i, f, d); }
    forall d | d in g.replicators ensures ReplicatorShape(h, d) && FedBy(h, d) == FedBy(g, d) {
      SplitSlaveReplicator(g, i, f, d);
    }
    SplitSlaveNew(g, i, f);
    SplitSlaveContract(g, i, f);
  }

  lemma SplitSlaveContract<D>(g: Graph<D>, i: nat, f: D)
    requires Good(g) && CanSplitSlave(g, i, f) && Good(SplitSlave(g, i, f)) && SameEnds(g, SplitSlave(g, i, f))
    requires g.wires[i].slavePort.Some?
      && Feeds(SplitSlave(g, i, f), f) == (g.wires[i].slave, g.wires[i].slavePort.value)
    ensures Contract(SplitSlave(g, i, f)) == Contract(g)
  {
    var h := SplitSlave(g, i, f);
    var n := |g.wires|;
    forall k: nat | k < n ensures Part(g, k) == Part(h, k) {
      SplitSlavePart(g, i, f, k);
    }
    ContractSame(g, h, n);
    LastInternal(h, n);
  }

  lemma LastInternal<D>(h: Graph<D>, n: nat)
    requires Good(h) && |h.wires| == n + 1 && Internal(h, h.wires[n])
    ensures Contract(h) == ContractTo(h, n)
  {
    assert Part(h, n) == [];
  }

  lemma SplitSlavePart<D>(g: Graph<D>, i: nat, f: D, k: nat)
    requires Good(g) && CanSplitSlave(g, i, f) && Good(SplitSlave(g, i, f)) && SameEnds(g, SplitSlave(g, i, f))
    requires g.wires[i].slavePort.Some?
      && Feeds(SplitSlave(g, i, f), f) == (g.wires[i].slave, g.wires[i].slavePort.value)
    requires k < |g.wires|
    ensures Part(g, k) == Part(SplitSlave(g, i, f), k)
  {
    assert g.wires[k] in g.wires && SplitSlave(g, i, f).wires[k] in SplitSlave(g, i, f).wires;
  }

  // ---------- splitting a master port: the same seen from the other end ----------

  function Flip<D>(w: Wire<D>): Wire<D> {
    Wire(w.slave, w.slavePort, w.master, w.masterPort, w.kind)
  }

  /** The graph with every wire turned round. */
  function Mirror<D>(g: Graph<D>): Graph<D> {
    Graph(g.replicators, g.funnels, seq(|g.wires|, i requires 0 <= i < |g.wires| => Flip(g.wires[i])))
  }

  lemma MirrorShape<D>(g: Graph<D>, d: D)
    ensures FunnelShape(Mirror(g), d) == ReplicatorShape(g, d)
    ensures ReplicatorShape(g, d) ==> Feeds(Mirror(g), d) == FedBy(g, d)
  {
    var m := Mirror(g);
    assert forall i: nat :: Out(m, d, i) == In(g, d, i);
    if ReplicatorShape(g, d) {
      var i: nat :| In(g, d, i);
      FedByAt(g, d, i);
      FeedsAt(m, d, i);
    }
  }

  lemma MirrorTwice<D>(g: Graph<D>)
    ensures Mirror(Mirror(g)) == g
  {
    assert Mirror(Mirror(g)).wires == g.wires;
  }

  lemma MirrorKeeps<D>(g: Graph<D>)
    requires Good(g)
    ensures Good(Mirror(g))
    ensures forall d | d in g.replicators :: Feeds(Mirror(g), d) == FedBy(g, d)
    ensures forall d | d in g.funnels :: FedBy(Mirror(g), d) == Feeds(g, d)
  {
    var m := Mirror(g);
    MirrorTwice(g);
    forall w | w in m.wires ensures Flip(w) in g.wires {
      var i :| 0 <= i < |m.wires| && m.wires[i] == w;
      assert Flip(w) == g.wires[i];
    }
    forall d | d in g.replicators ensures FunnelShape(m, d) && Feeds(m, d) == FedBy(g, d) { MirrorShape(g, d); }
    forall d | d in g.funnels ensures ReplicatorShape(m, d) && FedBy(m, d) == Feeds(g, d) { MirrorShape(m, d); }
  }

  ghost predicate CanSplitMaster<D>(g: Graph<D>, i: nat, r: D) {
    && i < |g.wires| && Fresh(g, r)
    && g.wires[i].kind == Atb && !Hidden(g, g.wires[i].master) && g.wires[i].slave !in g.replicators
  }

  lemma SplitMasterGood<D>(g: Graph<D>, i: nat, r: D)
    requires Good(g) && CanSplitMaster(g, i, r)
    ensures var h := SplitMaster(g, i, r);
            && Good(h) && SameEnds(g, h) && Contract(h) == Contract(g)
            && g.wires[i].masterPort.Some? && FedBy(h, r) == (g.wires[i].master, g.wires[i].masterPort.value)
  {
    var m := Mirror(g);
    var h := SplitMaster(g, i, r);
    MirrorKeeps(g);
    forall w | w in m.wires ensures w.master != r && w.slave != r {
      var k :| 0 <= k < |m.wires| && m.wires[k] == w;
      assert g.wires[k] in g.wires;
    }
    SplitSlaveGood(m, i, r);
    assert SplitSlave(m, i, r).wires == Mirror(h).wires;
    MirrorKeeps(Mirror(h));
    MirrorTwice(h);
    MirrorKeeps(h);
    SplitMasterContract(g, i, r);
  }

  lemma SplitMasterContract<D>(g: Graph<D>, i: nat, r: D)
    requires Good(g) && CanSplitMaster(g, i, r) && Good(SplitMaster(g, i, r)) && SameEnds(g, SplitMaster(g, i, r))
    requires g.wires[i].masterPort.Some?
      && FedBy(SplitMaster(g, i, r), r) == (g.wires[i].master, g.wires[i].masterPort.value)
    ensures Contract(SplitMaster(g, i, r)) == Contract(g)
  {
    var h := SplitMaster(g, i, r);
    var n := |g.wires|;
    forall k: nat | k < n ensures Part(g, k) == Part(h, k) {
      SplitMasterPart(g, i, r, k);
    }
    ContractSame(g, h, n);
    LastInternal(h, n);
  }

  lemma SplitMasterPart<D>(g: Graph<D>, i: nat, r: D, k: nat)
    requires Good(g) && CanSplitMaster(g, i, r) && Good(SplitMaster(g, i, r)) && SameEnds(g, SplitMaster(g, i, r))
    requires g.wires[i].masterPort.Some?
      && FedBy(SplitMaster(g, i, r), r) == (g.wires[i].master, g.wires[i].masterPort.value)
    requires k < |g.wires|
    ensures Part(g, k) == Part(SplitMaster(g, i, r), k)
  {
    assert g.wires[k] in g.wires && SplitMaster(g, i, r).wires[k] in SplitMaster(g, i, r).wires;
  }

  // ---------- adding the wire itself ----------

  /** The ends of the new wire are free numbered ports of visible devices, or many sides of hidden devices. */
  ghost predicate CanAdd<D>(g: Graph<D>, w: Wire<D>) {
    && Good(g)
    && (if w.slavePort.None? then w.slave in g.funnels else !Hidden(g, w.slave))
    && (if w.masterPort.None? then w.master in g.replicators else !Hidden(g, w.master))
    && (w.kind != Atb ==> w.slavePort.Some? && w.masterPort.Some?)
    && (forall v | v in g.wires :: !ShareSlavePort(v, w) && !ShareMasterPort(v, w))
  }

  lemma AddWireGood<D>(g: Graph<D>, w: Wire<D>)
    requires CanAdd(g, w)
    ensures Good(AddWire(g, w)) && SameEnds(g, AddWire(g, w))
    ensures w in AddWire(g, w).wires && Contract(AddWire(g, w)) == Contract(g) + [Resolve(AddWire(g, w), w)]
    ensures var (m, mp) := Source(g, w.master, w.masterPort); var (s, sp) := Target(g, w.slave, w.slavePort);
            Resolve(AddWire(g, w), w) == Request(m, mp, s, sp, w.kind)
  {
    var h := AddWire(g, w);
    AddWirePorts(g, w);
    forall d | d in g.funnels ensures FunnelShape(h, d) && Feeds(h, d) == Feeds(g, d) { AddWireFunnel(g, w, d); }
    forall d | d in g.replicators ensures ReplicatorShape(h, d) && FedBy(h, d) == FedBy(g, d) {
      AddWireReplicator(g, w, d);
    }
    AddWireContract(g, w);
  }

  lemma AddWirePorts<D>(g: Graph<D>, w: Wire<D>)
    requires CanAdd(g, w)
    ensures PortsUnique(AddWire(g, w)) && Numbered(AddWire(g, w))
  {
    var h := AddWire(g, w);
    assert h.wires[|g.wires|] == w;
    assert forall k: nat | k < |g.wires| :: h.wires[k] == g.wires[k] && g.wires[k] in g.wires;
  }

  lemma AddWireFunnel<D>(g: Graph<D>, w: Wire<D>, d: D)
    requires CanAdd(g, w) && d in g.funnels
    ensures FunnelShape(AddWire(g, w), d) && Feeds(AddWire(g, w), d) == Feeds(g, d)
  {
    var h := AddWire(g, w);
    var k: nat :| Out(g, d, k);
    assert Out(h, d, k);
    assert forall j: nat | Out(h, d, j) :: Out(g, d, j);
    FeedsAt(g, d, k);
    FeedsAt(h, d, k);
  }

  lemma AddWireReplicator<D>(g: Graph<D>, w: Wire<D>, d: D)
    requires CanAdd(g, w) && d in g.replicators
    ensures ReplicatorShape(AddWire(g, w), d) && FedBy(AddWire(g, w), d) == FedBy(g, d)
  {
    var h := AddWire(g, w);
    var k: nat :| In(g, d, k);
    assert In(h, d, k);
    assert forall j: nat | In(h, d, j) :: In(g, d, j);
    FedByAt(g, d, k);
    FedByAt(h, d, k);
  }

  lemma AddWireContract<D>(g: Graph<D>, w: Wire<D>)
    requires CanAdd(g, w) && Good(AddWire(g, w)) && SameEnds(g, AddWire(g, w))
    ensures w in AddWire(g, w).wires && Contract(AddWire(g, w)) == Contract(g) + [Resolve(AddWire(g, w), w)]
  {
    var h := AddWire(g, w);
    var n := |g.wires|;
    assert h.wires[n] == w;
    forall k: nat | k < n ensures Part(g, k) == Part(h, k) {
      assert h.wires[k] == g.wires[k] && g.wires[k] in g.wires;
    }
    ContractSame(g, h, n);
  }

  // ---------- a whole link ----------

  ghost predicate SlavePortFree<D>(g: Graph<D>, d: D, p: nat) {
    forall w | w in g.wires :: !(w.kind == Atb && w.slave == d && w.slavePort == Some(p))
  }

  ghost predicate MasterPortFree<D>(g: Graph<D>, d: D, p: nat) {
    forall w | w in g.wires :: !(w.kind == Atb && w.master == d && w.masterPort == Some(p))
  }

  /** The wire that decides where a new link to a used slave port goes. */
  ghost predicate AtSlavePort<D>(g: Graph<D>, at: nat, d: D, p: nat) {
    at < |g.wires| && g.wires[at].kind == Atb && g.wires[at].slave == d && g.wires[at].slavePort == Some(p)
  }

  ghost predicate AtMasterPort<D>(g: Graph<D>, at: nat, d: D, p: nat) {
    at < |g.wires| && g.wires[at].kind == Atb && g.wires[at].master == d && g.wires[at].masterPort == Some(p)
  }

  /** How a slave port gets ready for one more link: left alone, through its hidden funnel, or split. */
  ghost predicate SlaveReady<D>(g: Graph<D>, h: Graph<D>, slave: D, p: nat, s: D, sp: Option<nat>) {
    if sp.Some? then h == g && s == slave && sp == Some(p) && SlavePortFree(g, slave, p)
    else if s in g.funnels then h == g && exists at: nat :: AtSlavePort(g, at, slave, p) && g.wires[at].master == s
    else exists at: nat :: AtSlavePort(g, at, slave, p) && CanSplitSlave(g, at, s) && h == SplitSlave(g, at, s)
  }

  ghost predicate MasterReady<D>(g: Graph<D>, h: Graph<D>, master: D, p: nat, m: D, mp: Option<nat>) {
    if mp.Some? then h == g && m == master && mp == Some(p) && MasterPortFree(g, master, p)
    else if m in g.replicators then h == g && exists at: nat :: AtMasterPort(g, at, master, p) && g.wires[at].slave == m
    else exists at: nat :: AtMasterPort(g, at, master, p) && CanSplitMaster(g, at, m) && h == SplitMaster(g, at, m)
  }

  lemma SlaveReadyGood<D>(g: Graph<D>, h: Graph<D>, slave: D, p: nat, s: D, sp: Option<nat>)
    requires Good(g) && SlaveReady(g, h, slave, p, s, sp)
    ensures Good(h) && SameEnds(g, h) && Contract(h) == Contract(g)
    ensures sp.None? ==> s in h.funnels && Feeds(h, s) == (slave, p)
  {
    if sp.None? && s in g.funnels {
      var at: nat :| AtSlavePort(g, at, slave, p) && g.wires[at].master == s;
      assert Out(g, s, at);
      FeedsAt(g, s, at);
    } else if sp.None? {
      var at: nat :| AtSlavePort(g, at, slave, p) && CanSplitSlave(g, at, s) && h == SplitSlave(g, at, s);
      SplitSlaveGood(g, at, s);
    }
  }

  lemma MasterReadyGood<D>(g: Graph<D>, h: Graph<D>, master: D, p: nat, m: D, mp: Option<nat>)
    requires Good(g) && MasterReady(g, h, master, p, m, mp)
    ensures Good(h) && SameEnds(g, h) && Contract(h) == Contract(g)
    ensures mp.None? ==> m in h.replicators && FedBy(h, m) == (master, p)
  {
    if mp.None? && m in g.replicators {
      var at: nat :| AtMasterPort(g, at, master, p) && g.wires[at].slave == m;
      assert In(g, m, at);
      FedByAt(g, m, at);
    } else if mp.None? {
      var at: nat :| AtMasterPort(g, at, master, p) && CanSplitMaster(g, at, m) && h == SplitMaster(g, at, m);
      SplitMasterGood(g, at, m);
    }
  }

  /** Getting a master port ready takes no slave port. */
  lemma MasterReadyKeepsFree<D>(g: Graph<D>, h: Graph<D>, master: D, p: nat, m: D, mp: Option<nat>, d: D, q: nat)
    requires MasterReady(g, h, master, p, m, mp) && SlavePortFree(g, d, q) && d != m
    ensures SlavePortFree(h, d, q)
  {
    forall w | w in h.wires ensures !(w.kind == Atb && w.slave == d && w.slavePort == Some(q)) {
      if w !in g.wires {
        var at: nat :| AtMasterPort(g, at, master, p) && h == SplitMaster(g, at, m);
        assert g.wires[at] in g.wires;
      }
    }
  }

  /** A link between visible devices adds exactly itself to the contracted topology and keeps all the rest. */
  lemma LinkGood<D>(g: Graph<D>, g1: Graph<D>, g2: Graph<D>, master: D, mp: nat, slave: D, sp: nat, m: D,
                    mEnd: Option<nat>, s: D, sEnd: Option<nat>)
    requires Good(g) && SlaveReady(g, g1, slave, sp, s, sEnd) && MasterReady(g1, g2, master, mp, m, mEnd)
    requires !Hidden(g2, master) && !Hidden(g2, slave) && slave != m
    ensures var h := AddWire(g2, Wire(m, mEnd, s, sEnd, Atb));
            Good(h) && Contract(h) == Contract(g) + [Request(master, mp, slave, sp, Atb)]
  {
    SlaveReadyGood(g, g1, slave, sp, s, sEnd);
    MasterReadyGood(g1, g2, master, mp, m, mEnd);
    if sEnd.Some? { MasterReadyKeepsFree(g1, g2, master, mp, m, mEnd, slave, sp); }
    if mEnd.Some? { assert g2 == g1; }
    AddWireGood(g2, Wire(m, mEnd, s, sEnd, Atb));
  }

  /** The same for the other kinds of link, which never share ports with ATB links. */
  lemma PlainLinkGood<D>(g: Graph<D>, master: D, mp: nat, slave: D, sp: nat, kind: LinkType)
    requires Good(g) && kind != Atb && !Hidden(g, master) && !Hidden(g, slave)
    ensures var h := AddWire(g, Wire(master, Some(mp), slave, Some(sp), kind));
            Good(h) && Contract(h) == Contract(g) + [Request(master, mp, slave, sp, kind)]
  {
    AddWireGood(g, Wire(master, Some(mp), slave, Some(sp), kind));
  }

  // ---------- no hidden device without need ----------

  ghost predicate InTwice<D>(g: Graph<D>, d: D) {
    exists i: nat, j: nat :: i < j && In(g, d, i) && In(g, d, j)
  }

  ghost predicate OutTwice<D>(g: Graph<D>, d: D) {
    exists i: nat, j: nat :: i < j && Out(g, d, i) && Out(g, d, j)
  }

  /** Hidden devices only stand for ports that are shared: every funnel has several inputs, every replicator outputs. */
  ghost predicate Lean<D>(g: Graph<D>) {
    (forall f | f in g.funnels :: InTwice(g, f)) && (forall r | r in g.replicators :: OutTwice(g, r))
  }

  /** The same while a link is made: the funnel or replicator it will use may still lack it. */
  ghost predicate LeanBut<D>(g: Graph<D>, ds: set<D>) {
    && (forall f | f in g.funnels :: if f in ds then exists i: nat :: In(g, f, i) else InTwice(g, f))
    && (forall r | r in g.replicators :: if r in ds then exists i: nat :: Out(g, r, i) else OutTwice(g, r))
  }

  /** Wires stay where they were, at devices other than those of wire `at`. */
  lemma SplitSlaveStays<D>(g: Graph<D>, at: nat, f: D, d: D, i: nat)
    requires Good(g) && CanSplitSlave(g, at, f)
    ensures In(g, d, i) && Hidden(g, d) ==> In(SplitSlave(g, at, f), d, i)
    ensures Out(g, d, i) ==> Out(SplitSlave(g, at, f), d, i)
    ensures In(SplitSlave(g, at, f), f, at)
  {}

  lemma SplitMasterStays<D>(g: Graph<D>, at: nat, r: D, d: D, i: nat)
    requires Good(g) && CanSplitMaster(g, at, r)
    ensures Out(g, d, i) && Hidden(g, d) ==> Out(SplitMaster(g, at, r), d, i)
    ensures In(g, d, i) ==> In(SplitMaster(g, at, r), d, i)
    ensures Out(SplitMaster(g, at, r), r, at)
  {}

  lemma SlaveReadyLean<D>(g: Graph<D>, h: Graph<D>, slave: D, p: nat, s: D, sp: Option<nat>)
    requires Good(g) && Lean(g) && SlaveReady(g, h, slave, p, s, sp)
    ensures LeanBut(h, if sp.None? then {s} else {})
  {
    hide Good, In, Out, AtSlavePort, Fresh;
    if sp.None? && s !in g.funnels {
      var at: nat :| AtSlavePort(g, at, slave, p) && CanSplitSlave(g, at, s) && h == SplitSlave(g, at, s);
      SplitSlaveStays(g, at, s, s, at);
      forall f | f in g.funnels ensures InTwice(h, f) {
        var i: nat, j: nat :| i < j && In(g, f, i) && In(g, f, j);
        SplitSlaveStays(g, at, s, f, i);
        SplitSlaveStays(g, at, s, f, j);
      }
      forall r | r in g.replicators ensures OutTwice(h, r) {
        var i: nat, j: nat :| i < j && Out(g, r, i) && Out(g, r, j);
        SplitSlaveStays(g, at, s, r, i);
        SplitSlaveStays(g, at, s, r, j);
      }
    }
  }

  lemma MasterReadyLean<D>(g: Graph<D>, h: Graph<D>, master: D, p: nat, m: D, mp: Option<nat>, ds: set<D>)
    requires Good(g) && LeanBut(g, ds) && MasterReady(g, h, master, p, m, mp) && ds !! g.replicators
    ensures LeanBut(h, if mp.None? then ds + {m} else ds)
  {
    hide Good, In, Out, AtMasterPort, Fresh;
    if mp.None? && m !in g.replicators {
      var at: nat :| AtMasterPort(g, at, master, p) && CanSplitMaster(g, at, m) && h == SplitMaster(g, at, m);
      SplitMasterStays(g, at, m, m, at);
      forall f | f in g.funnels ensures if f in ds then exists i: nat :: In(h, f, i) else InTwice(h, f) {
        if f in ds {
          var i: nat :| In(g, f, i);
          SplitMasterStays(g, at, m, f, i);
        } else {
          var i: nat, j: nat :| i < j && In(g, f, i) && In(g, f, j);
          SplitMasterStays(g, at, m, f, i);
          SplitMasterStays(g, at, m, f, j);
        }
      }
      forall r | r in g.replicators ensures OutTwice(h, r) {
        var i: nat, j: nat :| i < j && Out(g, r, i) && Out(g, r, j);
        SplitMasterStays(g, at, m, r, i);
        SplitMasterStays(g, at, m, r, j);
      }
    }
  }

  lemma AddWireLean<D>(g: Graph<D>, w: Wire<D>, ds: set<D>)
    requires LeanBut(g, ds) && g.funnels !! g.replicators
    requires forall d | d in ds :: (d in g.funnels ==> w.slave == d) && (d in g.replicators ==> w.master == d)
    ensures Lean(AddWire(g, w))
  {
    var h, n := AddWire(g, w), |g.wires|;
    forall f | f in g.funnels ensures InTwice(h, f) {
      if f in ds {
        var i: nat :| In(g, f, i);
        assert In(h, f, i) && In(h, f, n);
      } else {
        var i: nat, j: nat :| i < j && In(g, f, i) && In(g, f, j);
        assert In(h, f, i) && In(h, f, j);
      }
    }
    forall r | r in g.replicators ensures OutTwice(h, r) {
      if r in ds {
        var i: nat :| Out(g, r, i);
        assert Out(h, r, i) && Out(h, r, n);
      } else {
        var i: nat, j: nat :| i < j && Out(g, r, i) && Out(g, r, j);
        assert Out(h, r, i) && Out(h, r, j);
      }
    }
  }

  /** A whole link leaves no hidden device that only one wire needs. */
  lemma LinkLean<D>(g: Graph<D>, g1: Graph<D>, g2: Graph<D>, master: D, mp: nat, slave: D, sp: nat, m: D,
                    mEnd: Option<nat>, s: D, sEnd: Option<nat>)
    requires Good(g) && Lean(g) && SlaveReady(g, g1, slave, sp, s, sEnd) && MasterReady(g1, g2, master, mp, m, mEnd)
    ensures Lean(AddWire(g2, Wire(m, mEnd, s, sEnd, Atb)))
  {
    hide Good, LeanBut, Lean;
    SlaveReadyGood(g, g1, slave, sp, s, sEnd);
    SlaveReadyLean(g, g1, slave, sp, s, sEnd);
    MasterReadyGood(g1, g2, master, mp, m, mEnd);
    var ds := if sEnd.None? then {s} else {};
    TellApart(g1);
    TellApart(g2);
    MasterReadyLean(g1, g2, master, mp, m, mEnd, ds);
    AddWireLean(g2, Wire(m, mEnd, s, sEnd, Atb), if mEnd.None? then ds + {m} else ds);
  }

  lemma TellApart<D>(g: Graph<D>)
    requires Good(g)
    ensures g.funnels !! g.replicators
  {}

  lemma PlainLinkLean<D>(g: Graph<D>, w: Wire<D>)
    requires Good(g) && Lean(g)
    ensures Lean(AddWire(g, w))
  {
    hide Good, Lean, InTwice, OutTwice;
    TellApart(g);
    LeanAlready(g);
    AddWireLean(g, w, {});
  }

  lemma LeanAlready<D>(g: Graph<D>)
    requires Lean(g)
    ensures LeanBut(g, {})
  {}
}
