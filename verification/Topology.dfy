/**
  The CoreSight platform: devices and links that point at each other. Making an
  ATB link to a port already in use splices a hidden funnel or replicator into
  the links made before.
 */
module Topology {
  import opened Bytes
  import opened TopologyGraph

  datatype DeviceType = Funnel | Replicator | Core | TraceCore | Buffer | OtherDevice(major: nat, minor: nat)

  datatype LinkEnd = MasterEnd | SlaveEnd

  class Device {
    const kind: DeviceType
    const hidden: bool
    var inlinks: seq<Link>
    var outlinks: seq<Link>

    constructor (kind: DeviceType, hidden: bool)
      requires hidden ==> kind in {Funnel, Replicator}
      ensures this.kind == kind && this.hidden == hidden && inlinks == [] && outlinks == []
    {
      this.kind, this.hidden, inlinks, outlinks := kind, hidden, [], [];
    }

    predicate HiddenFunnel() { hidden && kind == Funnel }

    predicate HiddenReplicator() { hidden && kind == Replicator }

    function Links(end: LinkEnd): seq<Link>
      reads this
    {
      if end == SlaveEnd then inlinks else outlinks
    }

    /** The first link of a type at one of the device's ports. */
    method FindLink(linktype: LinkType, end: LinkEnd, port: nat) returns (r: Link?)
      ensures r != null ==> r in Links(end) && r.linktype == linktype && r.Port(end) == Some(port)
      ensures r == null ==> forall ln | ln in Links(end) :: !(ln.linktype == linktype && ln.Port(end) == Some(port))
    {
      var lns := Links(end);
      for i := 0 to |lns|
        invariant forall k | 0 <= k < i :: !(lns[k].linktype == linktype && lns[k].Port(end) == Some(port))
      {
        if lns[i].linktype == linktype && lns[i].Port(end) == Some(port) {
          return lns[i];
        }
      }
      return null;
    }
  }

  class Link {
    const linktype: LinkType
    var master: Device
    var slave: Device
    var masterPort: Option<nat>
    var slavePort: Option<nat>

    constructor (linktype: LinkType, master: Device, masterPort: Option<nat>, slave: Device, slavePort: Option<nat>)
      ensures this.linktype == linktype && View() == Wire(master, masterPort, slave, slavePort, linktype)
    {
      this.linktype, this.master, this.masterPort := linktype, master, masterPort;
      this.slave, this.slavePort := slave, slavePort;
    }

    function Port(end: LinkEnd): Option<nat>
      reads this
    {
      if end == SlaveEnd then slavePort else masterPort
    }

    function View(): Wire<Device>
      reads this
    {
      Wire(master, masterPort, slave, slavePort, linktype)
    }
  }

  /** list.remove(x): drops the first occurrence. */
  function Remove<T(==)>(s: seq<T>, x: T): (r: seq<T>)
    ensures (forall y | y in r :: y in s) && (forall y | y in s && y != x :: y in r)
    ensures NoDuplicates(s) ==> NoDuplicates(r) && x !in r
  {
    if s == [] then [] else if s[0] == x then s[1..]
    else
      assert NoDuplicates(s) ==> NoDuplicates(s[1..]) && s[0] !in s[1..];
      [s[0]] + Remove(s[1..], x)
  }

  ghost function WiresOf(links: seq<Link>): seq<Wire<Device>>
    reads links
  {
    seq(|links|, i requires 0 <= i < |links| reads links => links[i].View())
  }

  ghost predicate NoDuplicates<T>(s: seq<T>) {
    forall i, j | 0 <= i < j < |s| :: s[i] != s[j]
  }

  /** At one end: every link is listed, once, at the device it names, and nothing else is listed. */
  ghost predicate Known<L, D>(links: seq<L>, owner: map<L, D>, lists: map<D, seq<L>>) {
    && (forall ln | ln in links :: ln in owner && owner[ln] in lists && ln in lists[owner[ln]])
    && (forall d, ln | d in lists && ln in lists[d] :: ln in links && ln in owner && owner[ln] == d)
    && (forall d | d in lists :: NoDuplicates(lists[d]))
  }

  lemma KnownDevice<L, D>(links: seq<L>, owner: map<L, D>, lists: map<D, seq<L>>, d: D, after: map<D, seq<L>>)
    requires Known(links, owner, lists) && d !in lists && after == lists[d := []]
    ensures Known(links, owner, after)
  {}

  lemma KnownAttach<L, D>(links: seq<L>, owner: map<L, D>, lists: map<D, seq<L>>, ln: L, d: D,
                          links': seq<L>, owner': map<L, D>, lists': map<D, seq<L>>)
    requires Known(links, owner, lists) && d in lists && ln !in links
    requires links' == links + [ln] && owner' == owner[ln := d] && lists' == lists[d := lists[d] + [ln]]
    ensures Known(links', owner', lists')
  {
    assert ln !in lists[d];
  }

  lemma KnownMove<L, D>(links: seq<L>, owner: map<L, D>, lists: map<D, seq<L>>, ln: L, d: D,
                        owner': map<L, D>, lists': map<D, seq<L>>)
    requires Known(links, owner, lists) && ln in links && d in lists && owner[ln] != d
    requires owner' == owner[ln := d]
      && lists' == lists[owner[ln] := Remove(lists[owner[ln]], ln)][d := lists[d] + [ln]]
    ensures Known(links, owner', lists')
  {
    assert ln !in lists[d];
  }

  class Platform {
    var devices: seq<Device>
    var links: seq<Link>

    constructor ()
      ensures Valid() && links == [] && devices == [] && Lean(View())
    {
      devices, links := [], [];
      new;
      assert View().wires == [];
    }

    ghost function Wires(): seq<Wire<Device>>
      reads this`links, links
    {
      WiresOf(links)
    }

    /** The platform as a graph of wires. */
    ghost function View(): Graph<Device>
      reads this`links, this`devices, links
    {
      Graph((set d | d in devices && d.HiddenFunnel()), (set d | d in devices && d.HiddenReplicator()), Wires())
    }

    ghost function SlaveOf(): map<Link, Device>
      reads this`links, links`slave
    {
      map ln | ln in links :: ln.slave
    }

    ghost function MasterOf(): map<Link, Device>
      reads this`links, links`master
    {
      map ln | ln in links :: ln.master
    }

    ghost function InLists(): map<Device, seq<Link>>
      reads this`devices, devices`inlinks
    {
      map d | d in devices :: d.inlinks
    }

    ghost function OutLists(): map<Device, seq<Link>>
      reads this`devices, devices`outlinks
    {
      map d | d in devices :: d.outlinks
    }

    /** What Platform.check tests: links and devices know each other. */
    ghost predicate Connected()
      reads this`links, this`devices, links`slave, links`master, devices`inlinks, devices`outlinks
    {
      Known(links, SlaveOf(), InLists()) && Known(links, MasterOf(), OutLists()) && NoDuplicates(links)
    }

    ghost predicate Valid()
      reads this, links, devices
    {
      Connected() && Good(View())
    }

    method AddDevice(kind: DeviceType, hidden: bool) returns (d: Device)
      requires hidden ==> kind in {Funnel, Replicator}
      modifies this`devices
      ensures fresh(d) && d.kind == kind && d.hidden == hidden && d.inlinks == [] && d.outlinks == []
      ensures devices == old(devices) + [d]
      ensures InLists() == old(InLists())[d := []] && OutLists() == old(OutLists())[d := []]
      ensures SlaveOf() == old(SlaveOf()) && MasterOf() == old(MasterOf()) && Wires() == old(Wires())
    {
      d := new Device(kind, hidden);
      devices := devices + [d];
    }

    method AddHidden(kind: DeviceType) returns (d: Device)
      requires Connected() && kind in {Funnel, Replicator}
      modifies this`devices
      ensures Connected() && fresh(d) && d.kind == kind && d.hidden && d.inlinks == [] && d.outlinks == []
      ensures devices == old(devices) + [d]
      ensures View() == Graph(old(View()).funnels + (if kind == Funnel then {d} else {}),
                              old(View()).replicators + (if kind == Replicator then {d} else {}), old(Wires()))
    {
      d := AddDevice(kind, true);
      KnownDevice(links, old(SlaveOf()), old(InLists()), d, InLists());
      KnownDevice(links, old(MasterOf()), old(OutLists()), d, OutLists());
      assert Known(links, SlaveOf(), InLists());
    }

    /** A device of the platform description: no wire reaches it yet, and the graph is what it was. */
    method AddVisible(kind: DeviceType) returns (d: Device)
      requires Valid()
      modifies this`devices
      ensures Valid() && fresh(d) && d.kind == kind && !d.hidden
      ensures devices == old(devices) + [d] && View() == old(View())
    {
      d := AddDevice(kind, false);
      KnownDevice(links, old(SlaveOf()), old(InLists()), d, InLists());
      KnownDevice(links, old(MasterOf()), old(OutLists()), d, OutLists());
      assert Known(links, SlaveOf(), InLists());
      assert View() == old(View());
    }

    method EnterSlave(d: Device, ln: Link)
      requires d in devices
      modifies d`inlinks
      ensures InLists() == old(InLists())[d := old(d.inlinks) + [ln]]
      ensures SlaveOf() == old(SlaveOf()) && MasterOf() == old(MasterOf()) && OutLists() == old(OutLists())
        && Wires() == old(Wires())
    {
      d.inlinks := d.inlinks + [ln];
    }

    method EnterMaster(d: Device, ln: Link)
      requires d in devices
      modifies d`outlinks
      ensures OutLists() == old(OutLists())[d := old(d.outlinks) + [ln]]
      ensures SlaveOf() == old(SlaveOf()) && MasterOf() == old(MasterOf()) && InLists() == old(InLists())
        && Wires() == old(Wires())
    {
      d.outlinks := d.outlinks + [ln];
    }

    method LeaveSlave(d: Device, ln: Link)
      requires d in devices
      modifies d`inlinks
      ensures InLists() == old(InLists())[d := Remove(old(d.inlinks), ln)]
      ensures SlaveOf() == old(SlaveOf()) && MasterOf() == old(MasterOf()) && OutLists() == old(OutLists())
        && Wires() == old(Wires())
    {
      d.inlinks := Remove(d.inlinks, ln);
    }

    method LeaveMaster(d: Device, ln: Link)
      requires d in devices
      modifies d`outlinks
      ensures OutLists() == old(OutLists())[d := Remove(old(d.outlinks), ln)]
      ensures SlaveOf() == old(SlaveOf()) && MasterOf() == old(MasterOf()) && InLists() == old(InLists())
        && Wires() == old(Wires())
    {
      d.outlinks := Remove(d.outlinks, ln);
    }

    /** A link now ends, without a port number, at another device. */
    method PointSlave(ln: Link, pd: Device, ghost at: nat)
      requires at < |links| && links[at] == ln && NoDuplicates(links)
      modifies ln`slave, ln`slavePort
      ensures SlaveOf() == old(SlaveOf())[ln := pd]
      ensures Wires() == old(Wires())[at := old(ln.View()).(slave := pd, slavePort := None)]
      ensures MasterOf() == old(MasterOf()) && InLists() == old(InLists()) && OutLists() == old(OutLists())
    {
      ln.slave := pd;
      ln.slavePort := None;
    }

    method PointMaster(ln: Link, pd: Device, ghost at: nat)
      requires at < |links| && links[at] == ln && NoDuplicates(links)
      modifies ln`master, ln`masterPort
      ensures MasterOf() == old(MasterOf())[ln := pd]
      ensures Wires() == old(Wires())[at := old(ln.View()).(master := pd, masterPort := None)]
      ensures SlaveOf() == old(SlaveOf()) && InLists() == old(InLists()) && OutLists() == old(OutLists())
    {
      ln.master := pd;
      ln.masterPort := None;
    }

    method AddLink(ln: Link)
      modifies this`links
      ensures links == old(links) + [ln]
      ensures SlaveOf() == old(SlaveOf())[ln := ln.slave] && MasterOf() == old(MasterOf())[ln := ln.master]
      ensures Wires() == old(Wires()) + [ln.View()]
      ensures InLists() == old(InLists()) && OutLists() == old(OutLists())
    {
      links := links + [ln];
    }

    method NewLink(linktype: LinkType, master: Device, masterPort: Option<nat>, slave: Device,
                   slavePort: Option<nat>) returns (ln: Link)
      ensures fresh(ln) && ln !in links && ln.master == master && ln.slave == slave
      ensures ln.View() == Wire(master, masterPort, slave, slavePort, linktype)
      ensures SlaveOf() == old(SlaveOf()) && MasterOf() == old(MasterOf())
      ensures InLists() == old(InLists()) && OutLists() == old(OutLists()) && Wires() == old(Wires())
    {
      ln := new Link(linktype, master, masterPort, slave, slavePort);
    }

    /** The end of the link constructor: the new link is entered at both devices. */
    method Enter(ln: Link)
      requires Connected() && ln.master in devices && ln.slave in devices && ln.master != ln.slave && ln !in links
      modifies this`links, ln.master`outlinks, ln.slave`inlinks
      ensures Connected() && links == old(links) + [ln]
      ensures View() == AddWire(old(View()), ln.View())
    {
      hide Known;
      EnterMaster(ln.master, ln);
      EnterSlave(ln.slave, ln);
      AddLink(ln);
      KnownAttach(old(links), old(SlaveOf()), old(InLists()), ln, ln.slave, links, SlaveOf(), InLists());
      KnownAttach(old(links), old(MasterOf()), old(OutLists()), ln, ln.master, links, MasterOf(), OutLists());
    }

    method Attach(master: Device, masterPort: Option<nat>, slave: Device, slavePort: Option<nat>, linktype: LinkType)
      returns (ln: Link)
      requires Connected() && master in devices && slave in devices && master != slave
      modifies this`links, master`outlinks, slave`inlinks
      ensures Connected() && fresh(ln) && links == old(links) + [ln]
      ensures View() == AddWire(old(View()), Wire(master, masterPort, slave, slavePort, linktype))
    {
      ln := NewLink(linktype, master, masterPort, slave, slavePort);
      Enter(ln);
    }

    /** The link ends at the new device from now on. */
    method RepointSlave(ln: Link, pd: Device, ghost at: nat)
      requires Connected() && at < |links| && links[at] == ln && pd in devices && pd != ln.slave && ln.slave in devices
      modifies ln.slave`inlinks, ln`slave, ln`slavePort, pd`inlinks
      ensures Connected()
      ensures View() == old(View()).(wires := old(Wires())[at := old(ln.View()).(slave := pd, slavePort := None)])
    {
      LeaveSlave(ln.slave, ln);
      PointSlave(ln, pd, at);
      EnterSlave(pd, ln);
      KnownMove(links, old(SlaveOf()), old(InLists()), ln, pd, SlaveOf(), InLists());
      assert Known(links, MasterOf(), OutLists());
    }

    method RepointMaster(ln: Link, pd: Device, ghost at: nat)
      requires Connected() && at < |links| && links[at] == ln && pd in devices && pd != ln.master
        && ln.master in devices
      modifies ln.master`outlinks, ln`master, ln`masterPort, pd`outlinks
      ensures Connected()
      ensures View() == old(View()).(wires := old(Wires())[at := old(ln.View()).(master := pd, masterPort := None)])
    {
      LeaveMaster(ln.master, ln);
      PointMaster(ln, pd, at);
      EnterMaster(pd, ln);
      KnownMove(links, old(MasterOf()), old(OutLists()), ln, pd, MasterOf(), OutLists());
      assert Known(links, SlaveOf(), InLists());
    }

    /** First half of a split: the hidden funnel takes over the link sl. */
    method InsertFunnel(sl: Link, ghost at: nat) returns (pd: Device)
      requires Connected() && at < |links| && links[at] == sl && sl.slave in devices
      modifies this`devices, sl, sl.slave
      ensures Connected() && fresh(pd) && pd.HiddenFunnel() && devices == old(devices) + [pd]
      ensures View() == Graph(old(View()).funnels + {pd}, old(View()).replicators,
                              old(Wires())[at := old(sl.View()).(slave := pd, slavePort := None)])
    {
      pd := AddHidden(Funnel);
      RepointSlave(sl, pd, at);
    }

    /** Puts a hidden funnel in front of a slave port that already has the link sl. */
    method SplitSlavePort(sl: Link, ghost at: nat) returns (pd: Device, hiddenLink: Link)
      requires Connected() && at < |links| && links[at] == sl && sl.slave in devices
      modifies this, sl, sl.slave
      ensures Connected() && fresh(pd) && pd.HiddenFunnel() && devices == old(devices) + [pd]
      ensures fresh(hiddenLink) && links == old(links) + [hiddenLink]
      ensures View() == SplitSlave(old(View()), at, pd)
    {
      var slave, port := sl.slave, sl.slavePort;
      ghost var g := View();
      assert g.wires[at] == sl.View();
      pd := InsertFunnel(sl, at);
      // The nested constructor finds both of its ports free: pd is new and sl has left the slave's list.
      ghost var h := View();
      assert h == Graph(g.funnels + {pd}, g.replicators, g.wires[at := g.wires[at].(slave := pd, slavePort := None)]);
      hiddenLink := Attach(pd, Some(0), slave, port, Atb);
      assert AddWire(h, Wire(pd, Some(0), slave, port, Atb)) == SplitSlave(g, at, pd);
    }

    method InsertReplicator(ml: Link, ghost at: nat) returns (pd: Device)
      requires Connected() && at < |links| && links[at] == ml && ml.master in devices
      modifies this`devices, ml, ml.master
      ensures Connected() && fresh(pd) && pd.HiddenReplicator() && devices == old(devices) + [pd]
      ensures View() == Graph(old(View()).funnels, old(View()).replicators + {pd},
                              old(Wires())[at := old(ml.View()).(master := pd, masterPort := None)])
    {
      pd := AddHidden(Replicator);
      RepointMaster(ml, pd, at);
    }

    /** Puts a hidden replicator behind a master port that already has the link ml. */
    method SplitMasterPort(ml: Link, ghost at: nat) returns (pd: Device, hiddenLink: Link)
      requires Connected() && at < |links| && links[at] == ml && ml.master in devices
      modifies this, ml, ml.master
      ensures Connected() && fresh(pd) && pd.HiddenReplicator() && devices == old(devices) + [pd]
      ensures fresh(hiddenLink) && links == old(links) + [hiddenLink]
      ensures View() == SplitMaster(old(View()), at, pd)
    {
      var master, port := ml.master, ml.masterPort;
      ghost var g := View();
      assert g.wires[at] == ml.View();
      pd := InsertReplicator(ml, at);
      ghost var h := View();
      assert h == Graph(g.funnels, g.replicators + {pd}, g.wires[at := g.wires[at].(master := pd, masterPort := None)]);
      hiddenLink := Attach(master, port, pd, Some(0), Atb);
      assert AddWire(h, Wire(master, port, pd, Some(0), Atb)) == SplitMaster(g, at, pd);
    }

    // ---------- from lists to graph ----------

    lemma WireOfLink(w: Wire<Device>) returns (at: nat)
      requires Connected() && w in Wires()
      ensures at < |links| && w == links[at].View()
      ensures w.master in devices && w.slave in devices && links[at] in w.slave.inlinks
        && links[at] in w.master.outlinks
    {
      at :| 0 <= at < |links| && Wires()[at] == w;
      assert SlaveOf()[links[at]] == w.slave && MasterOf()[links[at]] == w.master;
      assert InLists()[w.slave] == w.slave.inlinks && OutLists()[w.master] == w.master.outlinks;
    }

    lemma ListedLink(d: Device, ln: Link) returns (at: nat)
      requires Connected() && d in devices && (ln in d.inlinks || ln in d.outlinks)
      ensures at < |links| && links[at] == ln && Wires()[at] == ln.View()
      ensures ln in d.inlinks ==> ln.slave == d
      ensures ln in d.outlinks ==> ln.master == d
    {
      assert InLists()[d] == d.inlinks && OutLists()[d] == d.outlinks;
      assert ln in links;
      at :| 0 <= at < |links| && links[at] == ln;
      assert SlaveOf()[ln] == ln.slave && MasterOf()[ln] == ln.master;
    }

    lemma SlaveListed(d: Device, ln: Link)
      requires Connected() && d in devices && ln in d.inlinks
      ensures ln in links && ln.slave == d
    {
      var at := ListedLink(d, ln);
    }

    lemma MasterListed(d: Device, ln: Link)
      requires Connected() && d in devices && ln in d.outlinks
      ensures ln in links && ln.master == d
    {
      var at := ListedLink(d, ln);
    }

    lemma NoListedSlave(d: Device, p: nat)
      requires Connected() && forall ln | ln in d.inlinks :: !(ln.linktype == Atb && ln.Port(SlaveEnd) == Some(p))
      ensures SlavePortFree(View(), d, p)
    {
      forall w | w in Wires() ensures !(w.kind == Atb && w.slave == d && w.slavePort == Some(p)) {
        var at := WireOfLink(w);
      }
    }

    lemma NoListedMaster(d: Device, p: nat)
      requires Connected() && forall ln | ln in d.outlinks :: !(ln.linktype == Atb && ln.Port(MasterEnd) == Some(p))
      ensures MasterPortFree(View(), d, p)
    {
      forall w | w in Wires() ensures !(w.kind == Atb && w.master == d && w.masterPort == Some(p)) {
        var at := WireOfLink(w);
      }
    }

    lemma EndsAreDevices()
      requires Connected()
      ensures forall w | w in Wires() :: w.master in devices && w.slave in devices
    {
      forall w | w in Wires() ensures w.master in devices && w.slave in devices {
        var at := WireOfLink(w);
      }
    }

    // ---------- the link constructor ----------

    /** The hidden funnel of a port in use: the one already there, or a new one. */
    method SharedFunnel(sl: Link) returns (s: Device, ghost ds: seq<Device>, ghost lns: seq<Link>)
      requires Connected() && sl.slave in devices && sl in sl.slave.inlinks
      requires sl.linktype == Atb && sl.slavePort.Some? && !sl.slave.hidden
      modifies this, sl, sl.slave
      ensures Connected() && s in devices && s.HiddenFunnel()
      ensures SlaveReady(old(View()), View(), old(sl.slave), old(sl.slavePort.value), s, None)
      ensures fresh(ds) && devices == old(devices) + ds && fresh(lns) && links == old(links) + lns
    {
      ghost var at := ListedLink(sl.slave, sl);
      EndsAreDevices();
      assert AtSlavePort(View(), at, sl.slave, sl.slavePort.value);
      if sl.master.HiddenFunnel() {
        s, ds, lns := sl.master, [], [];
      } else {
        var hiddenLink;
        s, hiddenLink := SplitSlavePort(sl, at);
        assert CanSplitSlave(old(View()), at, s);
        ds, lns := [s], [hiddenLink];
      }
    }

    /** Where a new ATB link to a slave port has to end: the port itself, or its hidden funnel. */
    method SlavePlace(slave: Device, slavePort: nat)
      returns (s: Device, sp: Option<nat>, ghost ds: seq<Device>, ghost lns: seq<Link>)
      requires Connected() && slave in devices && !slave.hidden
      modifies this, devices, links
      ensures Connected() && s in devices && (s == slave || s.HiddenFunnel())
      ensures SlaveReady(old(View()), View(), slave, slavePort, s, sp)
      ensures fresh(ds) && devices == old(devices) + ds && fresh(lns) && links == old(links) + lns
    {
      hide Connected, View;
      var sl := slave.FindLink(Atb, SlaveEnd, slavePort);
      if sl == null {
        NoListedSlave(slave, slavePort);
        s, sp, ds, lns := slave, Some(slavePort), [], [];
      } else {
        SlaveListed(slave, sl);
        s, ds, lns := SharedFunnel(sl);
        sp := None;
      }
    }

    /** The hidden replicator of a port in use: the one already there, or a new one. */
    method SharedReplicator(ml: Link) returns (m: Device, ghost ds: seq<Device>, ghost lns: seq<Link>)
      requires Connected() && ml.master in devices && ml in ml.master.outlinks
      requires ml.linktype == Atb && ml.masterPort.Some? && !ml.master.hidden
      modifies this, ml, ml.master
      ensures Connected() && m in devices && m.HiddenReplicator()
      ensures MasterReady(old(View()), View(), old(ml.master), old(ml.masterPort.value), m, None)
      ensures fresh(ds) && devices == old(devices) + ds && fresh(lns) && links == old(links) + lns
    {
      ghost var at := ListedLink(ml.master, ml);
      EndsAreDevices();
      assert AtMasterPort(View(), at, ml.master, ml.masterPort.value);
      if ml.slave.HiddenReplicator() {
        m, ds, lns := ml.slave, [], [];
      } else {
        var hiddenLink;
        m, hiddenLink := SplitMasterPort(ml, at);
        assert CanSplitMaster(old(View()), at, m);
        ds, lns := [m], [hiddenLink];
      }
    }

    /** Where a new ATB link from a master port has to start. */
    method MasterPlace(master: Device, masterPort: nat)
      returns (m: Device, mp: Option<nat>, ghost ds: seq<Device>, ghost lns: seq<Link>)
      requires Connected() && master in devices && !master.hidden
      modifies this, devices, links
      ensures Connected() && m in devices && (m == master || m.HiddenReplicator())
      ensures MasterReady(old(View()), View(), master, masterPort, m, mp)
      ensures fresh(ds) && devices == old(devices) + ds && fresh(lns) && links == old(links) + lns
    {
      hide Connected, View;
      var ml := master.FindLink(Atb, MasterEnd, masterPort);
      if ml == null {
        NoListedMaster(master, masterPort);
        m, mp, ds, lns := master, Some(masterPort), [], [];
      } else {
        MasterListed(master, ml);
        m, ds, lns := SharedReplicator(ml);
        mp := None;
      }
    }

    /** What the link constructor asserts about its arguments. */
    predicate Linkable(master: Device, slave: Device, linktype: LinkType)
      reads this`devices
    {
      && master in devices && slave in devices && master != slave && !master.hidden && !slave.hidden
      && (linktype == CoreTrace ==> master.kind == Core && slave.kind in {TraceCore, Buffer})
      && (linktype == Cti ==> master.kind !in {Funnel, Replicator} && slave.kind !in {Funnel, Replicator})
    }

    /** Finds room at both ends, splitting ports as needed; g1 is the graph in between. */
    method MakeRoom(master: Device, masterPort: nat, slave: Device, slavePort: nat)
      returns (m: Device, mp: Option<nat>, s: Device, sp: Option<nat>,
               ghost g1: Graph<Device>, ghost ds: seq<Device>, ghost lns: seq<Link>)
      requires Connected() && Linkable(master, slave, Atb)
      modifies this, devices, links
      ensures Connected() && m in devices && s in devices && m != s && slave != m
      ensures SlaveReady(old(View()), g1, slave, slavePort, s, sp) && MasterReady(g1, View(), master, masterPort, m, mp)
      ensures fresh(ds) && devices == old(devices) + ds && fresh(lns) && links == old(links) + lns
    {
      hide Connected, View, SlaveReady, MasterReady;
      s, sp, ds, lns := SlavePlace(slave, slavePort);
      g1 := View();
      ghost var ds', lns';
      m, mp, ds', lns' := MasterPlace(master, masterPort);
      ds, lns := ds + ds', lns + lns';
    }

    /** Makes a link between two visible devices of an auto-split platform. */
    method MakeLink(master: Device, slave: Device, linktype: LinkType, masterPort: nat, slavePort: nat)
      returns (ghost ds: seq<Device>, ghost lns: seq<Link>)
      requires Valid() && Linkable(master, slave, linktype)
      modifies this, devices, links
      ensures Valid()
      ensures Contract(View()) == old(Contract(View())) + [Request(master, masterPort, slave, slavePort, linktype)]
      ensures old(Lean(View())) ==> Lean(View())
      ensures fresh(ds) && devices == old(devices) + ds && fresh(lns) && links == old(links) + lns
    {
      hide Connected, SlaveReady, MasterReady, Contract, Good, Lean;
      ghost var g, g1 := View(), View();
      var m, mp, s, sp := master, Some(masterPort), slave, Some(slavePort);
      ds, lns := [], [];
      if linktype == Atb {
        m, mp, s, sp, g1, ds, lns := MakeRoom(master, masterPort, slave, slavePort);
      }
      ghost var g2 := View();
      var ln := Attach(m, mp, s, sp, linktype);
      lns := lns + [ln];
      if linktype == Atb {
        LinkGood(g, g1, g2, master, masterPort, slave, slavePort, m, mp, s, sp);
        if Lean(g) { LinkLean(g, g1, g2, master, masterPort, slave, slavePort, m, mp, s, sp); }
      } else {
        PlainLinkGood(g, master, masterPort, slave, slavePort, linktype);
        if Lean(g) { PlainLinkLean(g, Wire(m, mp, s, sp, linktype)); }
      }
    }
  }

  lemma TakeOneMore<T>(s: seq<T>, n: nat)
    requires n < |s|
    ensures s[n] in s && s[..n + 1] == s[..n] + [s[n]]
  {}

  /**
    Makes a whole topology, link by link: contracted, it is exactly what was asked
    for, in order, and every hidden device stands for a port that several links share.
   */
  method Build(p: Platform, requests: seq<Request<Device>>)
    requires p.Valid() && forall r | r in requests :: p.Linkable(r.master, r.slave, r.kind)
    modifies p, p.devices, p.links
    ensures p.Valid() && PortsUnique(p.View())
    ensures Contract(p.View()) == old(Contract(p.View())) + requests
    ensures old(Lean(p.View())) ==> Lean(p.View())
  {
    hide Platform.Connected, Platform.View, Contract, Lean;
    ghost var ds: seq<Device>, lns: seq<Link> := [], [];
    for n := 0 to |requests|
      invariant p.Valid() && fresh(ds) && p.devices == old(p.devices) + ds && fresh(lns)
        && p.links == old(p.links) + lns
      invariant Contract(p.View()) == old(Contract(p.View())) + requests[..n]
      invariant old(Lean(p.View())) ==> Lean(p.View())
    {
      var r := requests[n];
      TakeOneMore(requests, n);
      ghost var ds', lns' := p.MakeLink(r.master, r.slave, r.kind, r.masterPort, r.slavePort);
      ds, lns := ds + ds', lns + lns';
    }
  }
}
