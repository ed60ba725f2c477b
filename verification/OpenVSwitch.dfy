/** handlers/openvswitch.c's link_ifaces on the pointer graph, following Ovs.LinkIfaces. */
module OpenVSwitch {
  import opened Common
  import opened Master
  import opened Matcher
  import opened Model
  import opened Ovs
  import opened Search
  import opened Topology
  import opened Tunnel

  /** ovs_if */
  class Iface {
    const id: nat
    const data: OvsIf
    var link: IfEntry?

    constructor (id: nat, data: OvsIf)
      ensures this.id == id && this.data == data && link == null
    {
      this.id, this.data, link := id, data, null;
    }
  }

  /** ovs_port */
  class Port {
    const id: nat
    const data: OvsPort
    var link: IfEntry?

    constructor (id: nat, data: OvsPort)
      ensures this.id == id && this.data == data && link == null
    {
      this.id, this.data, link := id, data, null;
    }
  }

  /** iface->port->bridge */
  function BridgeOf(o: Config, i: nat): nat
    requires ConfigOk(o) && i < |o.ifs|
  {
    o.ports[o.ifs[i].port].bridge
  }

  method NewIfaces(o: Config) returns (s: seq<Iface>)
    ensures |s| == |o.ifs| && fresh(s)
    ensures forall i {:trigger s[i]} :: 0 <= i < |s| ==> s[i].id == i && s[i].data == o.ifs[i] && s[i].link == null
  {
    s := [];
    for k := 0 to |o.ifs|
      invariant |s| == k && fresh(s)
      invariant forall i {:trigger s[i]} :: 0 <= i < k ==> s[i].id == i && s[i].data == o.ifs[i] && s[i].link == null
    {
      var f := new Iface(k, o.ifs[k]);
      s := s + [f];
    }
  }

  method NewPorts(o: Config) returns (s: seq<Port>)
    ensures |s| == |o.ports| && fresh(s)
    ensures forall p {:trigger s[p]} :: 0 <= p < |s| ==> s[p].id == p && s[p].data == o.ports[p] && s[p].link == null
  {
    s := [];
    for k := 0 to |o.ports|
      invariant |s| == k && fresh(s)
      invariant forall p {:trigger s[p]} :: 0 <= p < k ==> s[p].id == p && s[p].data == o.ports[p] && s[p].link == null
    {
      var f := new Port(k, o.ports[k]);
      s := s + [f];
    }
  }

  lemma Entry(t: Topology, e: IfEntry)
    requires t.Valid() && t.Has(e)
    ensures WF(t.model) && e.id < |t.model.info| && e.info == t.model.info[e.id] && |t.table| == |t.model.info|
    ensures t.HasNs(e.ns) && e.ns.id == t.model.info[e.id].ns
  {
    t.View(e);
  }

  /** link_tunnel */
  method LinkTunnel(t: Topology, e: IfEntry, ip: LocalIp)
    requires t.Valid() && t.Has(e)
    modifies t.Repr
    ensures t.Valid() && t.Repr == old(t.Repr) && t.table == old(t.table) && t.spaces == old(t.spaces)
    ensures WF(old(t.model)) && e.id < |old(t.model).info| && t.model == Ovs.LinkTunnel(old(t.model), e.id, ip)
  {
    hide Topology.Valid, WF, Holder, SetLink, SetMarks;
    Entry(t, e);
    if ip.NoLocal? {
      return;
    }
    var f: IfEntry? := null;
    if ip.Local? {
      f := TunnelFindAddr(t, e.ns, ip.addr);
    }
    t.LinkSet(f, e);
    t.WeakLinkSet(e);
  }

  /** link_patch */
  method LinkPatch(t: Topology, e: IfEntry, peer: Option<string>)
    requires t.Valid() && t.Has(e)
    modifies t.Repr
    ensures t.Valid() && t.Repr == old(t.Repr) && t.table == old(t.table) && t.spaces == old(t.spaces)
    ensures WF(old(t.model)) && e.id < |old(t.model).info| && t.model == Ovs.LinkPatch(old(t.model), e.id, peer)
  {
    hide Topology.Valid, WF, Result, Unsure, Pair, Warn;
    Entry(t, e);
    var found, ambiguous := FindIn(t, LinkPatchSearch(peer), null);
    if ambiguous {
      t.AddWarning(e);
    } else if found != null {
      t.PeerSet(e, found);
    }
  }

  /** The part of the inner loop's body after the interface has its entry. */
  method AttachEntry(t: Topology, o: Config, i: nat, e: IfEntry, master: IfEntry)
    requires t.Valid() && t.Has(e) && t.Has(master) && i < |o.ifs|
    modifies t.Repr
    ensures t.Valid() && t.Repr == old(t.Repr) && t.table == old(t.table) && t.spaces == old(t.spaces)
    ensures WF(old(t.model)) && e.id < |old(t.model).info| && master.id < |old(t.model).info|
    ensures t.model == Ovs.Attach(o, old(t.model), i, e.id, master.id)
  {
    hide Topology.Valid, WF, SetMaster, Ovs.LinkTunnel, Ovs.LinkPatch;
    Entry(t, e);
    Entry(t, master);
    t.MasterSet(master, e);
    if IsTunnel(o.ifs[i].typ) {
      LinkTunnel(t, e, o.ifs[i].localIp);
    } else if o.ifs[i].typ == "patch" {
      LinkPatch(t, e, o.ifs[i].peer);
    }
  }

  /** The parsed database next to the graph. */
  class Switch {
    const t: Topology
    const config: Config
    const ifs: seq<Iface>
    const ports: seq<Port>
    ghost var links: seq<Option<nat>>
    ghost var portLinks: seq<Option<nat>>

    /** Records for parsed objects, none of them linked yet. */
    constructor (t: Topology, config: Config)
      requires t.Valid() && |t.spaces| > 0 && ConfigOk(config)
      ensures Valid() && this.t == t && this.config == config && fresh(ifs) && fresh(ports)
      ensures Initial()
    {
      hide Topology.Valid, ConfigOk;
      var fs := NewIfaces(config);
      var ps := NewPorts(config);
      this.t, this.config, ifs, ports := t, config, fs, ps;
      links, portLinks := seq(|fs|, i => None), seq(|ps|, p => None);
      new;
      assert forall i :: 0 <= i < |ifs| ==> IfaceFits(i);
      assert forall p :: 0 <= p < |ports| ==> PortFits(p);
    }

    ghost predicate Initial()
      reads this
    {
      && (forall i :: 0 <= i < |links| ==> links[i].None?)
      && (forall p :: 0 <= p < |portLinks| ==> portLinks[p].None?)
    }

    ghost predicate IfaceFits(i: nat)
      reads this, t, ifs
      requires i < |ifs| && |config.ifs| == |links| == |ifs|
    {
      && ifs[i].id == i && ifs[i].data == config.ifs[i]
      && links[i] == Ref(ifs[i].link) && (ifs[i].link != null ==> t.Has(ifs[i].link))
    }

    ghost predicate PortFits(p: nat)
      reads this, t, ports
      requires p < |ports| && |config.ports| == |portLinks| == |ports|
    {
      && ports[p].id == p && ports[p].data == config.ports[p]
      && portLinks[p] == Ref(ports[p].link) && (ports[p].link != null ==> t.Has(ports[p].link))
    }

    /** The records agree with the ghost links; they are not part of the graph. */
    ghost predicate Wired()
      reads this, t, ifs, ports
    {
      && |config.ifs| == |links| == |ifs| && |config.ports| == |portLinks| == |ports|
      && (forall i :: 0 <= i < |ifs| ==> IfaceFits(i))
      && (forall p :: 0 <= p < |ports| ==> PortFits(p))
    }

    ghost predicate Outside()
      reads this, t
    {
      && this !in t.Repr
      && (forall i :: 0 <= i < |ifs| ==> ifs[i] !in t.Repr)
      && (forall p :: 0 <= p < |ports| ==> ports[p] !in t.Repr)
    }

    ghost predicate Valid()
      reads this, t, t.Repr, ifs, ports
    {
      t.Valid() && |t.spaces| > 0 && ConfigOk(config) && Wired() && Outside()
    }

    ghost function Now(): State
      reads this, t
    {
      State(t.model, links, portLinks)
    }

    lemma NowOk()
      requires Valid()
      ensures StateOk(config, Now()) && |t.table| == |t.model.info| && |t.spaces| == |t.model.spaces|
      ensures t in t.Repr
    {
      t.WalkNs(0);
      Numbers(t.table, t.spaces, t.model);
      forall i | 0 <= i < |links| ensures Id(t.model, links[i]) {
        assert IfaceFits(i);
      }
      forall p | 0 <= p < |portLinks| ensures Id(t.model, portLinks[p]) {
        assert PortFits(p);
      }
    }

    method PutLink(i: nat, e: IfEntry?)
      requires Wired() && i < |ifs| && this !in t.Repr && Outside() && t in t.Repr && (e != null ==> t.Has(e))
      modifies ifs`link, `links
      ensures Wired() && links == old(links)[i := Ref(e)] && ifs[i].link == e
      ensures forall k {:trigger ifs[k]} :: 0 <= k < |ifs| && k != i ==> ifs[k].link == old(ifs[k].link)
    {
      ifs[i].link := e;
      links := links[i := Ref(e)];
      forall k | 0 <= k < |ifs| ensures IfaceFits(k) {
        assert old(IfaceFits(k)) && old(IfaceFits(i));
      }
      forall p | 0 <= p < |ports| ensures PortFits(p) {
        assert old(PortFits(p));
      }
      forall k {:trigger ifs[k]} | 0 <= k < |ifs| && k != i ensures ifs[k].link == old(ifs[k].link) {
        assert old(IfaceFits(k)) && old(IfaceFits(i));
      }
    }

    method PutPortLink(p: nat, e: IfEntry)
      requires Wired() && p < |ports| && this !in t.Repr && Outside() && t in t.Repr && t.Has(e)
      modifies ports`link, `portLinks
      ensures Wired() && portLinks == old(portLinks)[p := Some(e.id)] && ports[p].link == e
    {
      ports[p].link := e;
      portLinks := portLinks[p := Some(e.id)];
      forall k | 0 <= k < |ifs| ensures IfaceFits(k) {
        assert old(IfaceFits(k));
      }
      forall q | 0 <= q < |ports| ensures PortFits(q) {
        assert old(PortFits(q)) && old(PortFits(p));
      }
    }

    /** Changing the graph without taking entries away keeps the records in step. */
    twostate lemma WiredStays()
      requires old(Wired()) && links == old(links) && portLinks == old(portLinks)
      requires forall i {:trigger ifs[i]} :: 0 <= i < |ifs| ==> ifs[i].link == old(ifs[i].link)
      requires forall p {:trigger ports[p]} :: 0 <= p < |ports| ==> ports[p].link == old(ports[p].link)
      requires old(t.table) <= t.table
      ensures Wired()
    {
      forall i | 0 <= i < |ifs| ensures IfaceFits(i) {
        assert old(IfaceFits(i));
      }
      forall p | 0 <= p < |ports| ensures PortFits(p) {
        assert old(PortFits(p));
      }
    }

    /** What every step keeps. */
    twostate predicate Steady()
      reads this, t, t.Repr, ifs, ports
    {
      && Valid() && old(t.table) <= t.table && t.spaces == old(t.spaces)
      && fresh(t.Repr - old(t.Repr))
      && (forall i {:trigger ifs[i]} :: 0 <= i < |ifs| && old(ifs[i].link) != null ==> ifs[i].link == old(ifs[i].link))
    }

    /** Bridge `b` has a single main interface. */
    ghost predicate HasMain(b: nat) {
      ConfigOk(config) && b < |config.bridges| && MainOf(config, b).Some?
    }

    /** Interface `i` is one of bridge `b`, which has a main interface. */
    ghost predicate Under(i: nat, b: nat) {
      HasMain(b) && i < |config.ifs| && BridgeOf(config, i) == b
    }

    /** master->link in link_iface_search */
    function MainLink(b: nat): IfEntry?
      requires Wired() && HasMain(b)
      reads this, t, ifs, ports
    {
      ifs[config.ports[config.bridges[b].system.value].ifaces[0]].link
    }

    method Root() returns (root: NetnsEntry)
      requires t.Valid() && |t.spaces| > 0
      ensures t.HasNs(root) && root.id == 0
    {
      t.WalkNs(0);
      root := t.spaces[t.netnsList.head.next.holder];
    }

    ghost predicate Looked(i: nat, b: nat, g: Graph, main: Option<nat>, found: Option<nat>, ambiguous: bool)
      reads this, t
    {
      && Under(i, b) && WF(g) && Id(g, main)
      && var q := ByOvs(KeyOf(config, i, config.bridges[b].netdev, main));
      && t.model == Visit(g, q, None, Order(g)) && found == Result(g, q, None) && ambiguous == Unsure(g, q, None)
    }

    /** The search of link_iface, with its outcome stored. */
    method Look(i: nat, b: nat) returns (found: IfEntry?, ambiguous: bool)
      requires Valid() && Under(i, b) && ifs[i].link == null
      modifies t.Repr, ifs`link, `links
      ensures Steady() && t.table == old(t.table) && t.Repr == old(t.Repr)
      ensures Looked(i, b, old(t.model), Ref(old(MainLink(b))), Ref(found), ambiguous)
      ensures i < |old(links)| && links == old(links)[i := Ref(found)]
    {
      hide Topology.Valid, WF, Visit, Result, Unsure, ConfigOk, Wired, MainLink, Order;
      NowOk();
      LinkFacts(i);
      MainFacts(b);
      var f := ifs[i];
      var arg := OvsArg(f.data.name, f.data.typ == "internal", config.bridges[b].netdev, MainLink(b), config.vports);
      found, ambiguous := Find(t, LinkIfaceSearch(arg), null);
      WiredStays();
      PutLink(i, found);
    }

    /** A warning in the root namespace. */
    method WarnRoot()
      requires Valid()
      modifies t.Repr
      ensures Steady() && t.table == old(t.table) && t.Repr == old(t.Repr)
      ensures StateOk(config, old(Now())) && t.model == WarnSpace(old(t.model), 0)
    {
      hide Topology.Valid, WF, ConfigOk, Wired, WarnSpace;
      NowOk();
      var root := Root();
      t.WarnNs(root);
      WiredStays();
    }

    /** link_iface */
    method LinkIface(i: nat, b: nat, required: bool) returns (err: int)
      requires Valid() && Under(i, b)
      modifies t.Repr, ifs`link, `links
      ensures Steady() && t.table == old(t.table) && t.Repr == old(t.Repr)
      ensures StateOk(config, old(Now())) && Id(old(t.model), Ref(old(MainLink(b))))
      ensures Res(Now(), err) ==
        Ovs.LinkIface(config, old(Now()), i, config.bridges[b].netdev, Ref(old(MainLink(b))), required)
    {
      hide Topology.Valid, WF, Visit, Result, Unsure, WarnSpace, ConfigOk, Wired, MainLink, Order;
      NowOk();
      LinkFacts(i);
      MainFacts(b);
      if ifs[i].link != null {
        return 0;
      }
      var found, ambiguous := Look(i, b);
      if ambiguous {
        WarnRoot();
        return ERANGE;
      }
      if required && found == null {
        WarnRoot();
        return ENOENT;
      }
      return 0;
    }

    lemma LinkFacts(i: nat)
      requires Valid() && i < |config.ifs|
      ensures |links| == |ifs| == |config.ifs| && ifs[i].data == config.ifs[i] && links[i] == Ref(ifs[i].link)
      ensures ifs[i].link != null ==> t.Has(ifs[i].link)
      ensures this !in t.Repr && forall k :: 0 <= k < |ifs| ==> ifs[k] !in t.Repr
      ensures forall p :: 0 <= p < |ports| ==> ports[p] !in t.Repr
    {
      assert IfaceFits(i);
    }

    lemma MainFacts(b: nat)
      requires Valid() && HasMain(b)
      ensures MainLink(b) != null ==> t.Has(MainLink(b))
      ensures MainOf(config, b).value < |ifs| && MainLink(b) == ifs[MainOf(config, b).value].link
      ensures MainOf(config, b).value < |links| && links[MainOf(config, b).value] == Ref(MainLink(b))
    {
      assert IfaceFits(config.ports[config.bridges[b].system.value].ifaces[0]);
    }

    /** create_iface */
    method CreateIface(name: string, bridge: string) returns (e: IfEntry)
      requires Valid()
      modifies t.Repr
      ensures Steady() && t.table == old(t.table) + [e] && t.Has(e)
      ensures StateOk(config, old(Now())) && Now() == Ovs.Create(config, old(Now()), name, bridge)
      ensures e.id == |old(t.model).info|
    {
      hide Topology.Valid, WF, ConfigOk, Wired, GrowIface;
      NowOk();
      var root := Root();
      e := t.AddIface(root, InternalInfo(name, bridge));
      WiredStays();
    }

    method AttachTo(i: nat, master: IfEntry)
      requires Valid() && i < |config.ifs| && t.Has(master) && i < |ifs| && ifs[i].link != null
      modifies t.Repr
      ensures Steady() && t.table == old(t.table) && t.Repr == old(t.Repr)
      ensures StateOk(config, old(Now())) && old(links)[i].Some? && old(links)[i].value < |old(t.model).info|
      ensures master.id < |old(t.model).info|
      ensures t.model == Ovs.Attach(config, old(t.model), i, old(links)[i].value, master.id)
    {
      hide Topology.Valid, WF, ConfigOk, Wired, Ovs.Attach;
      NowOk();
      LinkFacts(i);
      AttachEntry(t, config, i, ifs[i].link, master);
      WiredStays();
    }

    /** The body of the inner loop. */
    method DoIface(i: nat, b: nat, master: IfEntry) returns (err: int)
      requires Valid() && Under(i, b) && t.Has(master)
      modifies t.Repr, ifs`link, `links
      ensures Steady()
      ensures Fits(old(Now()), i, b, Ref(old(MainLink(b))), master.id)
      ensures Res(Now(), err) == Ovs.DoIface(config, old(Now()), i, config.bridges[b].netdev, Ref(old(MainLink(b))),
        config.bridges[b].name, master.id)
    {
      hide Topology.Valid, WF, ConfigOk, Wired, Ovs.Attach, Ovs.LinkIface, Ovs.Create, MainLink;
      NowOk();
      LinkFacts(i);
      MainFacts(b);
      EntryNumber(master);
      err := LinkIface(i, b, false);
      if err != 0 {
        return;
      }
      LinkFacts(i);
      if ifs[i].link == null {
        var e := CreateIface(config.ifs[i].name, config.bridges[b].name);
        NowOk();
        PutLink(i, e);
      }
      AttachTo(i, master);
    }

    lemma EntryNumber(e: IfEntry)
      requires Valid() && t.Has(e)
      ensures e.id < |t.model.info|
    {
      t.View(e);
    }

    ghost predicate Fits(s: State, i: nat, b: nat, main: Option<nat>, master: nat) {
      Under(i, b) && StateOk(config, s) && Id(s.g, main) && master < |s.g.info|
    }

    /** Interfaces of a port belong to its bridge, and so do ports of a bridge. */
    lemma BridgeFacts(b: nat)
      requires HasMain(b)
      ensures forall p, k ::
        0 <= p < |config.ports| && config.ports[p].bridge == b && 0 <= k < |config.ports[p].ifaces| ==>
          Under(config.ports[p].ifaces[k], b)
      ensures forall k :: 0 <= k < |config.bridges[b].ports| ==>
        config.bridges[b].ports[k] < |config.ports| && config.ports[config.bridges[b].ports[k]].bridge == b
    {
    }

    ghost predicate PortRuns(s: State, ids: seq<nat>, main: Option<nat>, master: nat) {
      StateOk(config, s) && AllBelow(ids, |config.ifs|) && Id(s.g, main) && master < |s.g.info|
    }

    /** The inner loop. */
    method DoIfaces(p: nat, b: nat, master: IfEntry) returns (err: int)
      requires Valid() && HasMain(b) && p < |config.ports| && config.ports[p].bridge == b
      requires t.Has(master) && MainLink(b) != null
      modifies t.Repr, ifs`link, `links
      ensures Steady() && MainLink(b) == old(MainLink(b))
      ensures PortRuns(old(Now()), config.ports[p].ifaces, Ref(old(MainLink(b))), master.id)
      ensures Res(Now(), err) == Ovs.DoIfaces(config, old(Now()), config.ports[p].ifaces,
                config.bridges[b].netdev, Ref(old(MainLink(b))), config.bridges[b].name, master.id)
    {
      hide Topology.Valid, WF, ConfigOk, Wired, Ovs.DoIface, MainOf;
      var ids := config.ports[p].ifaces;
      ghost var s0, main := Now(), Ref(MainLink(b));
      var netdev, name := config.bridges[b].netdev, config.bridges[b].name;
      NowOk();
      MainFacts(b);
      EntryNumber(master);
      EntryNumber(MainLink(b));
      BridgeFacts(b);
      PortIfaces(config, p);
      err := 0;
      for k := 0 to |ids|
        invariant Steady() && MainLink(b) == old(MainLink(b)) && err == 0
        invariant Res(Now(), 0) == Ovs.DoIfaces(config, s0, ids[..k], netdev, main, name, master.id)
      {
        MainFacts(b);
        err := DoIface(ids[k], b, master);
        MainFacts(b);
        DoIfacesStep(s0, ids, k, netdev, main, name, master.id);
        if err != 0 {
          return;
        }
      }
      assert ids[..|ids|] == ids;
    }

    lemma {:induction false} DoIfacesStep(s: State, ids: seq<nat>, k: nat, netdev: bool, main: Option<nat>,
                                          name: string, master: nat)
      requires PortRuns(s, ids, main, master) && k < |ids|
      requires Ovs.DoIfaces(config, s, ids[..k], netdev, main, name, master).err == 0
      ensures var r := Ovs.DoIfaces(config, s, ids[..k], netdev, main, name, master).s;
        var q := Ovs.DoIface(config, r, ids[k], netdev, main, name, master);
        && Ovs.DoIfaces(config, s, ids[..k + 1], netdev, main, name, master) == q
        && (q.err != 0 ==> Ovs.DoIfaces(config, s, ids, netdev, main, name, master) == q)
      decreases |ids|
    {
      hide Ovs.DoIface, WF;
      var init := ids[..|ids| - 1];
      if k == |init| {
        assert ids[..k] == init && ids[..k + 1] == ids;
      } else {
        assert ids[..k] == init[..k] && ids[..k + 1] == init[..k + 1];
        DoIfacesStep(s, init, k, netdev, main, name, master);
      }
    }

    /** The entry of a port with several interfaces. */
    method MakeBond(p: nat, master: IfEntry, name: string) returns (e: IfEntry)
      requires Valid() && p < |config.ports| && t.Has(master)
      modifies t.Repr, ports`link, `portLinks
      ensures Steady() && t.Has(e) && e.id == |old(t.model).info| && master.id < |old(t.model).info|
      ensures StateOk(config, old(Now())) && Now() == Bond(config, old(Now()), p, master.id, name)
    {
      hide Topology.Valid, WF, ConfigOk, Wired, Ovs.Create, SetMaster;
      NowOk();
      EntryNumber(master);
      PortFacts(p);
      e := CreateIface(config.ports[p].name, name);
      NowOk();
      PortFacts(p);
      PutPortLink(p, e);
      NowOk();
      label L:
      t.MasterSet(master, e);
      WiredStays@L();
    }

    lemma PortFacts(p: nat)
      requires Valid() && p < |config.ports|
      ensures |ports| == |config.ports| && this !in t.Repr
      ensures forall k :: 0 <= k < |ifs| ==> ifs[k] !in t.Repr
      ensures forall q :: 0 <= q < |ports| ==> ports[q] !in t.Repr
    {
    }

    ghost predicate PortReady(s: State, p: nat, main: nat) {
      ConfigOk(config) && StateOk(config, s) && p < |config.ports| && main < |s.g.info|
    }

    /** The body of the loop over ports. */
    method DoPort(p: nat, b: nat) returns (err: int)
      requires Valid() && HasMain(b) && p < |config.ports| && config.ports[p].bridge == b && MainLink(b) != null
      modifies t.Repr, ifs`link, ports`link, `links, `portLinks
      ensures Steady() && MainLink(b) == old(MainLink(b))
      ensures PortReady(old(Now()), p, old(MainLink(b)).id)
      ensures Res(Now(), err) == Ovs.DoPort(config, old(Now()), p, config.bridges[b].netdev, old(MainLink(b)).id,
        config.bridges[b].name)
    {
      hide Topology.Valid, WF, ConfigOk, Wired, Ovs.DoIfaces, Bond, MainOf, MainLink;
      NowOk();
      MainFacts(b);
      var master := MainLink(b);
      EntryNumber(master);
      if |config.ports[p].ifaces| > 1 {
        master := MakeBond(p, master, config.bridges[b].name);
        MainFacts(b);
      }
      err := DoIfaces(p, b, master);
    }

    ghost predicate BridgeReady(s: State, ps: seq<nat>, main: nat) {
      ConfigOk(config) && StateOk(config, s) && AllBelow(ps, |config.ports|) && main < |s.g.info|
    }

    lemma {:induction false} DoPortsStep(s: State, ps: seq<nat>, k: nat, netdev: bool, main: nat, name: string)
      requires BridgeReady(s, ps, main) && k < |ps|
      requires Ovs.DoPorts(config, s, ps[..k], netdev, main, name).err == 0
      ensures var r := Ovs.DoPorts(config, s, ps[..k], netdev, main, name).s;
        var q := Ovs.DoPort(config, r, ps[k], netdev, main, name);
        && Ovs.DoPorts(config, s, ps[..k + 1], netdev, main, name) == q
        && (q.err != 0 ==> Ovs.DoPorts(config, s, ps, netdev, main, name) == q)
      decreases |ps|
    {
      hide Ovs.DoPort, WF, ConfigOk;
      var init := ps[..|ps| - 1];
      if k == |init| {
        assert ps[..k] == init && ps[..k + 1] == ps;
      } else {
        assert ps[..k] == init[..k] && ps[..k + 1] == init[..k + 1];
        DoPortsStep(s, init, k, netdev, main, name);
      }
    }

    /** The loop over the ports of a bridge. */
    method DoPorts(b: nat) returns (err: int)
      requires Valid() && HasMain(b) && MainLink(b) != null
      modifies t.Repr, ifs`link, ports`link, `links, `portLinks
      ensures Steady()
      ensures BridgeReady(old(Now()), config.bridges[b].ports, old(MainLink(b)).id)
      ensures Res(Now(), err) == Ovs.DoPorts(config, old(Now()), config.bridges[b].ports,
                config.bridges[b].netdev, old(MainLink(b)).id, config.bridges[b].name)
    {
      hide Topology.Valid, WF, ConfigOk, Wired, Ovs.DoPort, MainOf;
      var ps := config.bridges[b].ports;
      ghost var s0, main := Now(), MainLink(b).id;
      ghost var netdev, name := config.bridges[b].netdev, config.bridges[b].name;
      NowOk();
      MainFacts(b);
      EntryNumber(MainLink(b));
      BridgeFacts(b);
      BridgePorts(config, b);
      err := 0;
      for k := 0 to |ps|
        invariant Steady() && MainLink(b) == old(MainLink(b)) && err == 0
        invariant Res(Now(), 0) == Ovs.DoPorts(config, s0, ps[..k], netdev, main, name)
      {
        err := DoPort(ps[k], b);
        DoPortsStep(s0, ps, k, netdev, main, name);
        if err != 0 {
          return;
        }
      }
      assert ps[..|ps|] == ps;
    }

    /** The body of the loop over bridges. `resolved` tells whether all ports were treated. */
    method DoBridge(b: nat) returns (err: int, ghost resolved: bool)
      requires Valid() && b < |config.bridges|
      modifies t.Repr, ifs`link, ports`link, `links, `portLinks
      ensures Steady()
      ensures ConfigOk(config) && StateOk(config, old(Now()))
      ensures BridgeRes(Now(), err, resolved) == Ovs.DoBridge(config, old(Now()), b)
    {
      hide Topology.Valid, WF, ConfigOk, Wired, Ovs.DoPorts, Ovs.LinkIface, WarnSpace;
      NowOk();
      var br := config.bridges[b];
      if br.system.None? {
        WarnRoot();
        return 0, false;
      }
      SystemFacts(b);
      var ids := config.ports[br.system.value].ifaces;
      if |ids| != 1 {
        WarnRoot();
        return 0, false;
      }
      MainFacts(b);
      err := LinkIface(ids[0], b, true);
      LinkedOrFailed(old(Now()), ids[0], br.netdev, Ref(old(MainLink(b))));
      if err != 0 {
        if err == ENOENT || err == ERANGE {
          return 0, false;
        }
        assert false;
      }
      MainFacts(b);
      err := DoPorts(b);
      resolved := err == 0;
    }

    lemma SystemFacts(b: nat)
      requires ConfigOk(config) && b < |config.bridges| && config.bridges[b].system.Some?
      ensures config.bridges[b].system.value < |config.ports|
      ensures |config.ports[config.bridges[b].system.value].ifaces| == 1 ==>
        MainOf(config, b) == Some(config.ports[config.bridges[b].system.value].ifaces[0]) &&
          Under(MainOf(config, b).value, b)
    {
    }

    lemma LinkedOrFailed(s: State, i: nat, netdev: bool, main: Option<nat>)
      requires StateOk(config, s) && i < |config.ifs| && Id(s.g, main)
      ensures var r := Ovs.LinkIface(config, s, i, netdev, main, true);
        && (r.err == 0 || r.err == ENOENT || r.err == ERANGE) && (r.err == 0 ==> r.s.links[i].Some?)
      ensures s.links[i].Some? ==>
        Ovs.LinkIface(config, s, i, netdev, main, true) == Ovs.LinkIface(config, s, i, netdev, None, true)
    {
    }

    /** link_ifaces */
    method LinkIfaces() returns (err: int, ghost resolved: set<nat>)
      requires Valid()
      modifies t.Repr, ifs`link, ports`link, `links, `portLinks
      ensures Steady()
      ensures ConfigOk(config) && StateOk(config, old(Now()))
      ensures Run(Now(), err, resolved) == Ovs.LinkIfaces(config, old(Now()), |config.bridges|)
    {
      hide Topology.Valid, WF, ConfigOk, Wired, Ovs.DoBridge;
      NowOk();
      ghost var s0 := Now();
      err, resolved := 0, {};
      for b := 0 to |config.bridges|
        invariant Steady() && err == 0
        invariant Run(Now(), 0, resolved) == Ovs.LinkIfaces(config, s0, b)
      {
        ghost var done;
        err, done := DoBridge(b);
        resolved := if done then resolved + {b} else resolved;
        if err != 0 {
          StopsAt(s0, b + 1, |config.bridges|);
          return;
        }
      }
    }

    /** ovs_global_post from the parsed bridges on: none of its errors but lack of memory is
        reported, so a pass that was stopped by a doubtful interface counts as a success. */
    method GlobalPost() returns (err: int, ghost run: Run)
      requires Valid()
      modifies t.Repr, ifs`link, ports`link, `links, `portLinks
      ensures Steady() && err == 0
      ensures ConfigOk(config) && StateOk(config, old(Now()))
      ensures run == Ovs.LinkIfaces(config, old(Now()), |config.bridges|) && run.s == Now()
      ensures run.err == 0 || run.err == ERANGE
    {
      hide Topology.Valid, WF, ConfigOk, Wired, Ovs.LinkIfaces;
      NowOk();
      OnlyDoubtStops(config, Now(), |config.bridges|);
      ghost var resolved;
      err, resolved := 0, {};
      run := Run(Now(), 0, {});
      if config.bridges == [] {
        NoBridges(Now());
      } else {
        err, resolved := LinkIfaces();
        run := Run(Now(), err, resolved);
      }
      if err != ENOMEM {
        err := 0;
      }
    }

    lemma NoBridges(s: State)
      requires ConfigOk(config) && StateOk(config, s) && config.bridges == []
      ensures Ovs.LinkIfaces(config, s, |config.bridges|) == Run(s, 0, {})
    {
    }

    lemma {:induction false} StopsAt(s: State, m: nat, n: nat)
      requires ConfigOk(config) && StateOk(config, s) && m <= n <= |config.bridges|
      requires Ovs.LinkIfaces(config, s, m).err != 0
      ensures Ovs.LinkIfaces(config, s, n) == Ovs.LinkIfaces(config, s, m)
      decreases n
    {
      hide Ovs.DoBridge, WF, ConfigOk;
      if m < n {
        StopsAt(s, m, n - 1);
      }
    }
  }
}
