/** handlers/openvswitch.c's link_ifaces as a function of the graph and the already parsed
    bridges, ports and interfaces. */
module Ovs {
  import opened Common
  import opened Model
  import opened Resolution
  import opened Search
  import opened Tunnel

  const ENOENT := 2
  const ENOMEM := 12
  const ERANGE := 34

  /** The local_ip option: absent or empty, not an address, or an address. */
  datatype LocalIp = NoLocal | BadLocal | Local(addr: Address)

  datatype OvsIf = OvsIf(name: string, typ: string, peer: Option<string>, localIp: LocalIp, port: nat)

  /** Interfaces are listed by number. */
  datatype OvsPort = OvsPort(name: string, ifaces: seq<nat>, bridge: nat)

  /** `system` is the port named like the bridge; it is not among `ports`. */
  datatype OvsBridge = OvsBridge(name: string, netdev: bool, ports: seq<nat>, system: Option<nat>)

  datatype Config = Config(ifs: seq<OvsIf>, ports: seq<OvsPort>, bridges: seq<OvsBridge>, vports: set<(nat, string)>)

  /** Numbers are in range and agree with the back pointers; lists have no repeats. */
  ghost predicate ConfigOk(o: Config) {
    && (forall i {:trigger o.ifs[i]} :: 0 <= i < |o.ifs| ==> o.ifs[i].port < |o.ports|)
    && (forall p {:trigger o.ports[p]} :: 0 <= p < |o.ports| ==>
      o.ports[p].bridge < |o.bridges| && NoDup(o.ports[p].ifaces))
    && (forall p, k {:trigger o.ports[p].ifaces[k]} :: 0 <= p < |o.ports| && 0 <= k < |o.ports[p].ifaces| ==>
          o.ports[p].ifaces[k] < |o.ifs| && o.ifs[o.ports[p].ifaces[k]].port == p)
    && (forall b {:trigger o.bridges[b]} :: 0 <= b < |o.bridges| ==> NoDup(o.bridges[b].ports) && SystemOk(o, b))
    && (forall b, k {:trigger o.bridges[b].ports[k]} :: 0 <= b < |o.bridges| && 0 <= k < |o.bridges[b].ports| ==>
          o.bridges[b].ports[k] < |o.ports| && o.ports[o.bridges[b].ports[k]].bridge == b)
  }

  ghost predicate SystemOk(o: Config, b: nat)
    requires b < |o.bridges|
  {
    match o.bridges[b].system
    case None => true
    case Some(p) => p < |o.ports| && o.ports[p].bridge == b && p !in o.bridges[b].ports
  }

  /** The graph together with the `link` pointers of interfaces and ports. */
  datatype State = State(g: Graph, links: seq<Option<nat>>, portLinks: seq<Option<nat>>)

  ghost predicate StateOk(o: Config, s: State) {
    && WF(s.g) && |s.g.spaces| > 0
    && |s.links| == |o.ifs| && |s.portLinks| == |o.ports|
    && (forall i :: 0 <= i < |s.links| ==> Id(s.g, s.links[i]))
    && (forall p :: 0 <= p < |s.portLinks| ==> Id(s.g, s.portLinks[p]))
  }

  datatype Res = Res(s: State, err: int)

  function KeyOf(o: Config, i: nat, netdev: bool, main: Option<nat>): OvsKey
    requires i < |o.ifs|
  {
    OvsKey(o.ifs[i].name, o.ifs[i].typ == "internal", netdev, main, o.vports)
  }

  /** link_iface */
  ghost function LinkIface(o: Config, s: State, i: nat, netdev: bool, main: Option<nat>, required: bool): (r: Res)
    requires StateOk(o, s) && i < |o.ifs| && Id(s.g, main)
    ensures StateOk(o, r.s) && |r.s.g.info| == |s.g.info|
  {
    if s.links[i].Some? then Res(s, 0)
    else
      var q := ByOvs(KeyOf(o, i, netdev, main));
      var g := Visit(s.g, q, None, Order(s.g));
      ResultId(s.g, q, None);
      var found := Result(s.g, q, None);
      var links := s.links[i := found];
      if Unsure(s.g, q, None) then Res(State(WarnSpace(g, 0), links, s.portLinks), ERANGE)
      else if required && found.None? then Res(State(WarnSpace(g, 0), links, s.portLinks), ENOENT)
      else Res(State(g, links, s.portLinks), 0)
  }

  /** create_iface */
  function InternalInfo(name: string, bridge: string): Info {
    Info(0, name, Some("ovs:" + bridge), true, false, None, [], 0, 0, 0, -1, 0, -1, None)
  }

  ghost function Create(o: Config, s: State, name: string, bridge: string): (t: State)
    requires StateOk(o, s)
    ensures StateOk(o, t) && t.links == s.links && t.portLinks == s.portLinks
    ensures |t.g.info| == |s.g.info| + 1
  {
    s.(g := GrowIface(s.g, InternalInfo(name, bridge)))
  }

  predicate IsTunnel(typ: string) {
    typ == "vxlan" || typ == "geneve" || typ == "gre"
  }

  /** link_tunnel */
  ghost function LinkTunnel(g: Graph, e: nat, ip: LocalIp): (h: Graph)
    requires WF(g) && e < |g.info|
    ensures WF(h)
  {
    match ip
    case NoLocal => g
    case BadLocal =>
      var h := SetLink(g, None, e);
      SetMarks(h, e, h.marks[e].(weakLink := true))
    case Local(a) =>
      HolderId(g, g.info[e].ns, a);
      var h := SetLink(g, Holder(g, g.info[e].ns, a), e);
      SetMarks(h, e, h.marks[e].(weakLink := true))
  }

  lemma HolderId(g: Graph, ns: nat, a: Address)
    requires WF(g) && ns < |g.spaces|
    ensures Id(g, Holder(g, ns, a))
  {
    if Holder(g, ns, a).Some? {
      HolderMeaning(g, ns, a, Holder(g, ns, a).value);
    }
  }

  /** link_patch */
  ghost function LinkPatch(g: Graph, e: nat, peer: Option<string>): (h: Graph)
    requires WF(g) && e < |g.info|
    ensures WF(h)
  {
    ResultId(g, ByPatch(peer), None);
    if Unsure(g, ByPatch(peer), None) then Warn(g, e)
    else if Result(g, ByPatch(peer), None).Some? then Pair(g, Some(e), Result(g, ByPatch(peer), None))
    else g
  }

  /** What follows the linking of interface `i` to entry `e`: re-parenting, and the extras for
      tunnels and patch ports. */
  ghost function Attach(o: Config, g: Graph, i: nat, e: nat, master: nat): (h: Graph)
    requires WF(g) && i < |o.ifs| && e < |g.info| && master < |g.info|
    ensures WF(h)
  {
    var h := SetMaster(g, Some(master), e);
    if IsTunnel(o.ifs[i].typ) then LinkTunnel(h, e, o.ifs[i].localIp)
    else if o.ifs[i].typ == "patch" then LinkPatch(h, e, o.ifs[i].peer)
    else h
  }

  /** Entries keep their sub-drivers and the namespaces they point to. */
  ghost predicate SameMarks(g: Graph, h: Graph) {
    && |h.marks| >= |g.marks|
    && forall x :: 0 <= x < |g.marks| ==>
         h.marks[x].subDriver == g.marks[x].subDriver && h.marks[x].linkNet == g.marks[x].linkNet
  }

  lemma OwnSpace(g: Graph, e: nat)
    requires WF(g) && e < |g.info|
    ensures g.info[e].ns < |g.spaces|
  {
  }

  lemma AttachShape(o: Config, g: Graph, i: nat, e: nat, master: nat)
    requires WF(g) && i < |o.ifs| && e < |g.info| && master < |g.info|
    ensures var h := Attach(o, g, i, e, master);
      && h.info == g.info && |h.spaces| == |g.spaces|
      && (forall j :: 0 <= j < |g.spaces| ==>
        h.spaces[j].ifaces == g.spaces[j].ifaces && h.spaces[j].name == g.spaces[j].name)
      && h.master.up == g.master.up[e := Some(master)]
      && |h.link.up| == |g.link.up|
      && (forall x :: 0 <= x < |g.link.up| && (x != e || !IsTunnel(o.ifs[i].typ)) ==> h.link.up[x] == g.link.up[x])
      && (o.ifs[i].typ != "patch" ==> h.peer == g.peer)
  {
    hide Holder, Mirror, Involution, Placed, Result, Unsure;
    SetUpKeepsMirror(g.master, Some(master), e);
    var h := SetMaster(g, Some(master), e);
    OwnSpace(h, e);
    HolderId(h, h.info[e].ns, if o.ifs[i].localIp.Local? then o.ifs[i].localIp.addr else Address(0, []));
    ResultId(h, ByPatch(o.ifs[i].peer), None);
  }

  lemma AttachMarks(o: Config, g: Graph, i: nat, e: nat, master: nat)
    requires WF(g) && i < |o.ifs| && e < |g.info| && master < |g.info|
    ensures SameMarks(g, Attach(o, g, i, e, master))
  {
    hide Holder, Mirror, Involution, Placed, Result, Unsure;
    var h := SetMaster(g, Some(master), e);
    OwnSpace(h, e);
    HolderId(h, h.info[e].ns, if o.ifs[i].localIp.Local? then o.ifs[i].localIp.addr else Address(0, []));
  }

  /** One interface of a port, below `master`. */
  ghost function DoIface(o: Config, s: State, i: nat, netdev: bool, main: Option<nat>, bridge: string,
                         master: nat): (r: Res)
    requires StateOk(o, s) && i < |o.ifs| && Id(s.g, main) && master < |s.g.info|
    ensures StateOk(o, r.s) && |r.s.g.info| >= |s.g.info|
  {
    hide WF, Attach, LinkIface, Create;
    var r := LinkIface(o, s, i, netdev, main, false);
    if r.err != 0 then r
    else
      var t := if r.s.links[i].Some? then r.s
               else Create(o, r.s, o.ifs[i].name, bridge).(links := r.s.links[i := Some(|r.s.g.info|)]);
      var e := t.links[i].value;
      AttachShape(o, t.g, i, e, master);
      Res(t.(g := Attach(o, t.g, i, e, master)), 0)
  }

  /** The inner loop over `ids`. */
  ghost function DoIfaces(o: Config, s: State, ids: seq<nat>, netdev: bool, main: Option<nat>, bridge: string,
                          master: nat): (r: Res)
    requires StateOk(o, s) && AllBelow(ids, |o.ifs|) && Id(s.g, main) && master < |s.g.info|
    ensures StateOk(o, r.s) && |r.s.g.info| >= |s.g.info|
  {
    if ids == [] then Res(s, 0)
    else
      var r := DoIfaces(o, s, ids[..|ids| - 1], netdev, main, bridge, master);
      if r.err != 0 then r else DoIface(o, r.s, ids[|ids| - 1], netdev, main, bridge, master)
  }

  /** The entry standing for a port with several interfaces. */
  ghost function Bond(o: Config, s: State, p: nat, main: nat, bridge: string): (t: State)
    requires StateOk(o, s) && p < |o.ports| && main < |s.g.info|
    ensures StateOk(o, t) && |t.g.info| == |s.g.info| + 1
  {
    var n := |s.g.info|;
    var t := Create(o, s, o.ports[p].name, bridge);
    State(SetMaster(t.g, Some(main), n), t.links, t.portLinks[p := Some(n)])
  }

  ghost function DoPort(o: Config, s: State, p: nat, netdev: bool, main: nat, bridge: string): (r: Res)
    requires ConfigOk(o) && StateOk(o, s) && p < |o.ports| && main < |s.g.info|
    ensures StateOk(o, r.s) && |r.s.g.info| >= |s.g.info|
  {
    PortIfaces(o, p);
    if |o.ports[p].ifaces| > 1
    then DoIfaces(o, Bond(o, s, p, main, bridge), o.ports[p].ifaces, netdev, Some(main), bridge, |s.g.info|)
    else DoIfaces(o, s, o.ports[p].ifaces, netdev, Some(main), bridge, main)
  }

  lemma PortIfaces(o: Config, p: nat)
    requires ConfigOk(o) && p < |o.ports|
    ensures AllBelow(o.ports[p].ifaces, |o.ifs|) && NoDup(o.ports[p].ifaces)
    ensures forall k :: 0 <= k < |o.ports[p].ifaces| ==> o.ifs[o.ports[p].ifaces[k]].port == p
  {
  }

  lemma BridgePorts(o: Config, b: nat)
    requires ConfigOk(o) && b < |o.bridges|
    ensures AllBelow(o.bridges[b].ports, |o.ports|) && NoDup(o.bridges[b].ports)
    ensures forall k :: 0 <= k < |o.bridges[b].ports| ==> o.ports[o.bridges[b].ports[k]].bridge == b
  {
  }

  ghost function DoPorts(o: Config, s: State, ps: seq<nat>, netdev: bool, main: nat, bridge: string): (r: Res)
    requires ConfigOk(o) && StateOk(o, s) && AllBelow(ps, |o.ports|) && main < |s.g.info|
    ensures StateOk(o, r.s) && |r.s.g.info| >= |s.g.info|
  {
    if ps == [] then Res(s, 0)
    else
      var r := DoPorts(o, s, ps[..|ps| - 1], netdev, main, bridge);
      if r.err != 0 then r else DoPort(o, r.s, ps[|ps| - 1], netdev, main, bridge)
  }

  /** The main interface of a bridge, when there is exactly one. */
  ghost function MainOf(o: Config, b: nat): (i: Option<nat>)
    requires ConfigOk(o) && b < |o.bridges|
    ensures i.Some? ==> i.value < |o.ifs|
  {
    match o.bridges[b].system
    case None => None
    case Some(p) =>
      PortIfaces(o, p);
      if |o.ports[p].ifaces| == 1 then Some(o.ports[p].ifaces[0]) else None
  }

  /** `resolved`: was the main interface found and were all ports treated to the end? */
  datatype BridgeRes = BridgeRes(s: State, err: int, resolved: bool)

  ghost function DoBridge(o: Config, s: State, b: nat): (r: BridgeRes)
    requires ConfigOk(o) && StateOk(o, s) && b < |o.bridges|
    ensures StateOk(o, r.s)
  {
    if MainOf(o, b).None? then BridgeRes(s.(g := WarnSpace(s.g, 0)), 0, false)
    else
      var br := o.bridges[b];
      var i := MainOf(o, b).value;
      var r := LinkIface(o, s, i, br.netdev, None, true);
      if r.err == ENOENT || r.err == ERANGE then BridgeRes(r.s, 0, false)
      else
        BridgePorts(o, b);
        var q := DoPorts(o, r.s, br.ports, br.netdev, r.s.links[i].value, br.name);
        BridgeRes(q.s, q.err, q.err == 0)
  }

  /** `resolved`: the bridges treated to the end. */
  datatype Run = Run(s: State, err: int, resolved: set<nat>)

  /** link_ifaces over the first `n` bridges. */
  ghost function LinkIfaces(o: Config, s: State, n: nat): (r: Run)
    requires ConfigOk(o) && StateOk(o, s) && n <= |o.bridges|
    ensures StateOk(o, r.s)
  {
    hide WF, ConfigOk, DoBridge;
    if n == 0 then Run(s, 0, {})
    else
      var r := LinkIfaces(o, s, n - 1);
      if r.err != 0 then r
      else
        var q := DoBridge(o, r.s, n - 1);
        Run(q.s, q.err, if q.resolved then r.resolved + {n - 1} else r.resolved)
  }

  lemma {:induction false} IfacesErrors(o: Config, s: State, ids: seq<nat>, netdev: bool, main: Option<nat>,
                                        bridge: string, master: nat)
    requires StateOk(o, s) && AllBelow(ids, |o.ifs|) && Id(s.g, main) && master < |s.g.info|
    ensures var e := DoIfaces(o, s, ids, netdev, main, bridge, master).err; e == 0 || e == ERANGE
  {
    hide WF, Attach, Create, Result, Unsure;
    if ids != [] {
      IfacesErrors(o, s, ids[..|ids| - 1], netdev, main, bridge, master);
    }
  }

  lemma {:induction false} PortsErrors(o: Config, s: State, ps: seq<nat>, netdev: bool, main: nat, bridge: string)
    requires ConfigOk(o) && StateOk(o, s) && AllBelow(ps, |o.ports|) && main < |s.g.info|
    ensures var e := DoPorts(o, s, ps, netdev, main, bridge).err; e == 0 || e == ERANGE
  {
    hide WF, DoIfaces, Bond;
    if ps != [] {
      PortsErrors(o, s, ps[..|ps| - 1], netdev, main, bridge);
      var r := DoPorts(o, s, ps[..|ps| - 1], netdev, main, bridge);
      if r.err == 0 {
        PortErrors(o, r.s, ps[|ps| - 1], netdev, main, bridge);
      }
    }
  }

  lemma PortErrors(o: Config, s: State, p: nat, netdev: bool, main: nat, bridge: string)
    requires ConfigOk(o) && StateOk(o, s) && p < |o.ports| && main < |s.g.info|
    ensures var e := DoPort(o, s, p, netdev, main, bridge).err; e == 0 || e == ERANGE
  {
    hide WF, DoIfaces, Bond;
    PortIfaces(o, p);
    var ids := o.ports[p].ifaces;
    if |ids| > 1 {
      IfacesErrors(o, Bond(o, s, p, main, bridge), ids, netdev, Some(main), bridge, |s.g.info|);
    } else {
      IfacesErrors(o, s, ids, netdev, Some(main), bridge, main);
    }
  }

  /** Only a doubtful interface of a port ends the pass early. */
  lemma {:induction false} OnlyDoubtStops(o: Config, s: State, n: nat)
    requires ConfigOk(o) && StateOk(o, s) && n <= |o.bridges|
    ensures var e := LinkIfaces(o, s, n).err; e == 0 || e == ERANGE
  {
    hide WF, DoPorts, LinkIface;
    if n > 0 {
      OnlyDoubtStops(o, s, n - 1);
      var r := LinkIfaces(o, s, n - 1);
      if r.err == 0 {
        BridgeErrors(o, r.s, n - 1);
      }
    }
  }

  lemma BridgeErrors(o: Config, s: State, b: nat)
    requires ConfigOk(o) && StateOk(o, s) && b < |o.bridges|
    ensures var e := DoBridge(o, s, b).err; e == 0 || e == ERANGE
  {
    hide WF, DoPorts, Result, Unsure;
    if MainOf(o, b).Some? {
      var br := o.bridges[b];
      var r := LinkIface(o, s, MainOf(o, b).value, br.netdev, None, true);
      if r.err == 0 {
        BridgePorts(o, b);
        PortsErrors(o, r.s, br.ports, br.netdev, r.s.links[MainOf(o, b).value].value, br.name);
      }
    }
  }
}
