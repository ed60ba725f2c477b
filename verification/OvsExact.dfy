/** When link_ifaces stops early and which bridges it completes, decided by the configuration and the
    graph before the pass; and what follows for the entries without looking at the run. */
module OvsExact {
  import opened Common
  import opened Model
  import opened Ovs
  import opened OvsDevices
  import opened OvsInvariant
  import opened OvsTheory
  import opened Resolution
  import opened Search
  import opened Tunnel

  // ----- the condition

  /** The search for the main interface of bridge `b` finds one without doubt. */
  ghost predicate MainClear(o: Config, g: Graph, b: nat)
    requires ConfigOk(o) && WF(g) && b < |o.bridges|
  {
    MainOf(o, b).Some? && !Unsure(g, MainDevice(o, b), None) && Result(g, MainDevice(o, b), None).Some?
  }

  /** The search for interface `i` under the main interface found for its bridge. */
  ghost function IfaceQuery(o: Config, g: Graph, i: nat): (q: Query)
    requires ConfigOk(o) && WF(g) && i < |o.ifs| && MainClear(o, g, BridgeOf(o, i))
    ensures Sane(g, q)
  {
    var b := BridgeOf(o, i);
    ResultId(g, MainDevice(o, b), None);
    ByOvs(KeyOf(o, i, o.bridges[b].netdev, Result(g, MainDevice(o, b), None)))
  }

  /** If the main interface of bridge `b` is clear, no search for an interface on its ports is in doubt. */
  ghost predicate BridgeClear(o: Config, g: Graph, b: nat)
    requires ConfigOk(o) && WF(g) && b < |o.bridges|
  {
    MainClear(o, g, b) ==>
      forall i: nat :: Listed(o, i) && BridgeOf(o, i) == b ==> !Unsure(g, IfaceQuery(o, g, i), None)
  }

  ghost predicate ClearUpTo(o: Config, g: Graph, n: nat)
    requires ConfigOk(o) && WF(g) && n <= |o.bridges|
  {
    forall c: nat :: c < n ==> BridgeClear(o, g, c)
  }

  /** Bridge `b` and all before it are clear, and `b` has a main interface. */
  ghost predicate Reached(o: Config, g: Graph, b: nat)
    requires ConfigOk(o) && WF(g)
  {
    b < |o.bridges| && MainClear(o, g, b) && ClearUpTo(o, g, b + 1)
  }

  // ----- interfaces and ports

  /** None of the interfaces in `ids` is doubtful under the entry `main`, judged on `g`. */
  ghost predicate NoDoubt(o: Config, g: Graph, ids: seq<nat>, netdev: bool, main: Option<nat>)
    requires WF(g) && AllBelow(ids, |o.ifs|) && Id(g, main)
  {
    forall k :: 0 <= k < |ids| ==> !Unsure(g, ByOvs(KeyOf(o, ids[k], netdev, main)), None)
  }

  lemma DoIfaceStops(o: Config, g0: Graph, s: State, di: set<nat>, dp: set<nat>, i: nat, b: nat, bridge: string,
                     master: nat)
    requires Settled(o, g0, s, di, dp) && DistinctNames(o) && b < |o.bridges| && CanTreat(o, s, di, i, b, master)
    requires WF(g0) && Id(s.g, MainLink(o, s, b)) && Id(g0, MainLink(o, s, b)) && master < |s.g.info|
    requires bridge == o.bridges[b].name
    ensures DoIface(o, s, i, o.bridges[b].netdev, MainLink(o, s, b), bridge, master).err == 0 <==>
      !Unsure(g0, ByOvs(KeyOf(o, i, o.bridges[b].netdev, MainLink(o, s, b))), None)
  {
    hide Attach, WF, Inv, DistinctNames, ConfigOk, Result, Unsure, MainLink, Parent, Create, PairsMet, IfaceSettled,
      PortSettled, Matched;
    KeptFacts(o, g0, s, di, dp);
    SearchAsBefore(o, g0, s, i, o.bridges[b].netdev, MainLink(o, s, b));
  }

  lemma {:induction false} DoIfacesStops(o: Config, g0: Graph, s: State, di: set<nat>, dp: set<nat>, ids: seq<nat>,
                                         b: nat, bridge: string, master: nat)
    requires Settled(o, g0, s, di, dp) && DistinctNames(o) && AllBelow(ids, |o.ifs|) && NoDup(ids)
    requires b < |o.bridges| && Id(s.g, MainLink(o, s, b)) && master < |s.g.info|
    requires WF(g0) && Id(g0, MainLink(o, s, b)) && bridge == o.bridges[b].name
    requires forall k :: 0 <= k < |ids| ==> CanTreat(o, s, di, ids[k], b, master)
    ensures DoIfaces(o, s, ids, o.bridges[b].netdev, MainLink(o, s, b), bridge, master).err == 0 <==>
      NoDoubt(o, g0, ids, o.bridges[b].netdev, MainLink(o, s, b))
  {
    hide DoIface, DoIfaces, Inv, WF, DistinctNames, Settled, Kept, CanTreat, MainLink, StateOk, ConfigOk, NoDup, Elems,
      Unsure;
    SettledFacts(o, g0, s, di, dp);
    var netdev, main := o.bridges[b].netdev, MainLink(o, s, b);
    DoIfacesLast(o, s, ids, netdev, main, bridge, master);
    ElemsLast(ids, |o.ifs|);
    assert dp + {} == dp;
    if ids != [] {
      var init := ids[..|ids| - 1];
      var i := ids[|ids| - 1];
      DoIfacesSettles(o, g0, s, di, dp, init, b, bridge, master);
      DoIfacesStops(o, g0, s, di, dp, init, b, bridge, master);
      var q := DoIfaces(o, s, init, netdev, main, bridge, master);
      assert NoDoubt(o, g0, ids, netdev, main) <==>
        NoDoubt(o, g0, init, netdev, main) && !Unsure(g0, ByOvs(KeyOf(o, i, netdev, main)), None);
      if q.err == 0 {
        ReadyStays(o, s, q.s, di, Elems(init), i, b, master);
        DoIfaceStops(o, g0, q.s, di + Elems(init), dp, i, b, bridge, master);
      }
    }
  }

  lemma DoPortStops(o: Config, g0: Graph, s: State, dp: set<nat>, p: nat, b: nat, main: nat, bridge: string)
    requires ConfigOk(o) && Settled(o, g0, s, Members(o, dp), dp) && DistinctNames(o) && p < |o.ports| && p !in dp
    requires b == o.ports[p].bridge && b < |o.bridges| && p in o.bridges[b].ports
    requires main < |s.g.info| && MainLink(o, s, b) == Some(main) && WF(g0) && main < |g0.info|
    requires bridge == o.bridges[b].name
    ensures AllBelow(o.ports[p].ifaces, |o.ifs|)
    ensures DoPort(o, s, p, o.bridges[b].netdev, main, bridge).err == 0 <==>
      NoDoubt(o, g0, o.ports[p].ifaces, o.bridges[b].netdev, Some(main))
  {
    hide Inv, WF, DistinctNames, DoIfaces, Bond, ConfigOk, Kept, Settled, StateOk, MainLink, Members, CanTreat, NoDoubt;
    var ids := o.ports[p].ifaces;
    PortIfaces(o, p);
    MembersOfPort(o, dp, p);
    SettledFacts(o, g0, s, Members(o, dp), dp);
    if |ids| > 1 {
      BondSettles(o, g0, s, Members(o, dp), dp, p, main, bridge);
      var t := Bond(o, s, p, main, bridge);
      SettledFacts(o, g0, t, Members(o, dp), dp + {p});
      MainStays(o, s, t, b);
      IfacesReady(o, t, p, b, Members(o, dp), |s.g.info|);
      DoIfacesStops(o, g0, t, Members(o, dp), dp + {p}, ids, b, bridge, |s.g.info|);
    } else {
      PortTrivial(o, g0, s, dp, p);
      IfacesReady(o, s, p, b, Members(o, dp), main);
      DoIfacesStops(o, g0, s, Members(o, dp), dp + {p}, ids, b, bridge, main);
    }
  }

  /** The same for all interfaces of the ports in `ps`. */
  ghost predicate PortsClear(o: Config, g: Graph, ps: seq<nat>, netdev: bool, main: Option<nat>)
    requires ConfigOk(o) && WF(g) && AllBelow(ps, |o.ports|) && Id(g, main)
  {
    forall k :: 0 <= k < |ps| ==> PortClear(o, g, ps[k], netdev, main)
  }

  ghost predicate PortClear(o: Config, g: Graph, p: nat, netdev: bool, main: Option<nat>)
    requires ConfigOk(o) && WF(g) && p < |o.ports| && Id(g, main)
  {
    PortIfaces(o, p);
    NoDoubt(o, g, o.ports[p].ifaces, netdev, main)
  }

  lemma {:induction false} DoPortsStops(o: Config, g0: Graph, s: State, dp: set<nat>, b: nat, ps: seq<nat>, main: nat,
                                        bridge: string)
    requires ConfigOk(o) && Settled(o, g0, s, Members(o, dp), dp) && DistinctNames(o)
    requires AllBelow(ps, |o.ports|) && NoDup(ps)
    requires b < |o.bridges| && main < |s.g.info| && MainLink(o, s, b) == Some(main) && WF(g0) && main < |g0.info|
    requires bridge == o.bridges[b].name
    requires forall k :: 0 <= k < |ps| ==> ps[k] !in dp && o.ports[ps[k]].bridge == b && ps[k] in o.bridges[b].ports
    ensures DoPorts(o, s, ps, o.bridges[b].netdev, main, bridge).err == 0 <==>
      PortsClear(o, g0, ps, o.bridges[b].netdev, Some(main))
  {
    hide Inv, WF, DistinctNames, DoPort, ConfigOk, StateOk, MainLink, Members, Settled, Kept, PortClear;
    SettledFacts(o, g0, s, Members(o, dp), dp);
    var netdev := o.bridges[b].netdev;
    if ps != [] {
      var init := ps[..|ps| - 1];
      var p := ps[|ps| - 1];
      assert ps == init + [p];
      DoPortsSettles(o, g0, s, dp, b, init, main, bridge);
      DoPortsStops(o, g0, s, dp, b, init, main, bridge);
      var q := DoPorts(o, s, init, netdev, main, bridge);
      assert PortsClear(o, g0, ps, netdev, Some(main)) <==>
        PortsClear(o, g0, init, netdev, Some(main)) && PortClear(o, g0, p, netdev, Some(main));
      if q.err == 0 {
        MainStays(o, s, q.s, b);
        PortStops(o, g0, q.s, dp + Elems(init), p, b, main, bridge);
      }
    }
  }

  lemma PortStops(o: Config, g0: Graph, s: State, dp: set<nat>, p: nat, b: nat, main: nat, bridge: string)
    requires ConfigOk(o) && Settled(o, g0, s, Members(o, dp), dp) && DistinctNames(o) && p < |o.ports| && p !in dp
    requires b == o.ports[p].bridge && b < |o.bridges| && p in o.bridges[b].ports
    requires main < |s.g.info| && MainLink(o, s, b) == Some(main) && WF(g0) && main < |g0.info|
    requires bridge == o.bridges[b].name
    ensures DoPort(o, s, p, o.bridges[b].netdev, main, bridge).err == 0 <==>
      PortClear(o, g0, p, o.bridges[b].netdev, Some(main))
  {
    hide Inv, WF, DistinctNames, DoPort, ConfigOk, StateOk, MainLink, Members, Settled, Kept, NoDoubt;
    DoPortStops(o, g0, s, dp, p, b, main, bridge);
  }

  // ----- bridges

  lemma PortsAreBridge(o: Config, g: Graph, b: nat)
    requires ConfigOk(o) && WF(g) && b < |o.bridges| && MainClear(o, g, b)
    requires AllBelow(o.bridges[b].ports, |o.ports|) && Id(g, Result(g, MainDevice(o, b), None))
    ensures PortsClear(o, g, o.bridges[b].ports, o.bridges[b].netdev, Result(g, MainDevice(o, b), None)) <==>
      BridgeClear(o, g, b)
  {
    hide WF, Result, Unsure, MainOf;
    var ps, netdev, main := o.bridges[b].ports, o.bridges[b].netdev, Result(g, MainDevice(o, b), None);
    BridgePorts(o, b);
    if BridgeClear(o, g, b) {
      forall k | 0 <= k < |ps| ensures PortClear(o, g, ps[k], netdev, main) {
        PortIfaces(o, ps[k]);
        var ids := o.ports[ps[k]].ifaces;
        forall j | 0 <= j < |ids| ensures !Unsure(g, ByOvs(KeyOf(o, ids[j], netdev, main)), None) {
          assert Listed(o, ids[j]) && BridgeOf(o, ids[j]) == b;
        }
      }
    }
    if PortsClear(o, g, ps, netdev, main) {
      forall i: nat | Listed(o, i) && BridgeOf(o, i) == b ensures !Unsure(g, IfaceQuery(o, g, i), None) {
        var k :| 0 <= k < |ps| && ps[k] == o.ifs[i].port;
        assert PortClear(o, g, ps[k], netdev, main);
        var ids := o.ports[ps[k]].ifaces;
        var j :| 0 <= j < |ids| && ids[j] == i;
      }
    }
  }

  /** The main interface's search now and before the pass. */
  lemma MainStops(o: Config, g0: Graph, s: State, b: nat)
    requires Inv(o, g0, s) && DistinctNames(o) && ConfigOk(o) && StateOk(o, s) && WF(g0)
    requires b < |o.bridges| && MainOf(o, b).Some? && MainLink(o, s, b).None?
    ensures var r := LinkIface(o, s, MainOf(o, b).value, o.bridges[b].netdev, None, true);
      && (r.err == 0 <==> MainClear(o, g0, b)) && (r.err == 0 || r.err == ENOENT || r.err == ERANGE)
      && (r.err == 0 ==> MainLink(o, r.s, b) == Result(g0, MainDevice(o, b), None))
  {
    hide Inv, DistinctNames, Result, Unsure, WF, ConfigOk;
    SearchAsBefore(o, g0, s, MainOf(o, b).value, o.bridges[b].netdev, None);
  }

  lemma DoBridgeStops(o: Config, g0: Graph, s: State, bs: set<nat>, b: nat)
    requires BridgesDone(o, g0, s, bs) && DistinctNames(o) && b < |o.bridges| && b !in bs
    requires StateOk(o, s) && WF(g0) && MainLink(o, s, b).None?
    ensures var r := DoBridge(o, s, b);
      (r.err == 0 <==> BridgeClear(o, g0, b)) && (r.resolved <==> MainClear(o, g0, b) && BridgeClear(o, g0, b))
  {
    hide Settled, Kept, Inv, WF, DistinctNames, DoPorts, ConfigOk, Members, PortsOf, LinkIface, Result, Unsure, MainOf,
      PortsClear, IfaceQuery;
    var dp := PortsOf(o, bs);
    SettledFacts(o, g0, s, Members(o, dp), dp);
    if MainOf(o, b).Some? {
      var br := o.bridges[b];
      var i := MainOf(o, b).value;
      var r := LinkIface(o, s, i, br.netdev, None, true);
      LinkIfaceEffect(o, s, i, br.netdev, None, true);
      MainNotListed(o, b);
      MainSearchKeeps(o, g0, s, bs, i, br.netdev);
      MainStops(o, g0, s, b);
      if r.err == 0 {
        BridgePorts(o, b);
        PortsOfBridge(o, bs, b);
        SettledFacts(o, g0, r.s, Members(o, dp), dp);
        ResultId(g0, MainDevice(o, b), None);
        DoPortsStops(o, g0, r.s, dp, b, br.ports, r.s.links[i].value, br.name);
        PortsAreBridge(o, g0, b);
      }
    }
  }

  /** Exactly when the pass over the first `n` bridges ends without error, and exactly which of them it
      treats to the end: the configuration and the graph before the pass decide. A bridge is completed
      if and only if its main interface is found without doubt and neither it nor a bridge before it has
      an interface in doubt. */
  lemma {:induction false} StopsExactly(o: Config, s: State, n: nat)
    requires OvsTheory.Initial(o, s) && DistinctNames(o) && n <= |o.bridges|
    ensures WF(s.g)
    ensures LinkIfaces(o, s, n).err == 0 <==> ClearUpTo(o, s.g, n)
    ensures forall b: nat {:trigger b in LinkIfaces(o, s, n).resolved} ::
      b in LinkIfaces(o, s, n).resolved <==> b < n && Reached(o, s.g, b)
  {
    hide DoBridge, DistinctNames, WF, Settled, Kept, ConfigOk, BridgeClear, MainClear;
    if n > 0 {
      StopsExactly(o, s, n - 1);
      LinkIfacesSettles(o, s, n - 1);
      LinkIfacesMatches(o, s, n - 1);
      var r := LinkIfaces(o, s, n - 1);
      if r.err == 0 {
        DoBridgeStops(o, s.g, r.s, r.resolved, n - 1);
      }
    }
  }

  /** A bridge with a doubtful interface is left out, and so is every bridge behind it. */
  lemma DoubtEndsIt(o: Config, g: Graph, c: nat)
    requires ConfigOk(o) && WF(g) && c < |o.bridges| && !BridgeClear(o, g, c)
    ensures forall b: nat :: c <= b ==> !Reached(o, g, b)
  {
    hide BridgeClear, MainClear, ConfigOk, WF;
  }

  // ----- the outcome, from the configuration and the graph before the pass

  /** Being completed does not depend on the run: `Covered` is `Reached`. */
  lemma CoveredExactly(o: Config, s: State, i: nat)
    requires OvsTheory.Initial(o, s) && DistinctNames(o) && Listed(o, i)
    ensures WF(s.g)
    ensures Covered(o, LinkIfaces(o, s, |o.bridges|).resolved, i) <==> Reached(o, s.g, BridgeOf(o, i))
  {
    hide DistinctNames, WF, ConfigOk, LinkIfaces, Reached;
    StopsExactly(o, s, |o.bridges|);
  }

  /** Every interface of a bridge that is clear, like all before it, and has a clear main interface gets
      an entry of its own and of its name: the device found in the graph before the pass, or a new one.
      It hangs under the device of the main interface, or under the new entry of its port which hangs
      there. */
  lemma PlacedFromStart(o: Config, s: State, i: nat)
    requires OvsTheory.Initial(o, s) && DistinctNames(o)
    requires Listed(o, i) && Reached(o, s.g, BridgeOf(o, i))
    ensures var t := LinkIfaces(o, s, |o.bridges|).s; var p := o.ifs[i].port; var device := DeviceAtStart(o, s.g, i);
      var main := Result(s.g, MainDevice(o, BridgeOf(o, i)), None);
      && t.links[i].Some? && t.g.info[t.links[i].value].name == o.ifs[i].name
      && (if device.Some? then t.links[i] == device else t.links[i].value >= |s.g.info|)
      && main.Some?
      && (|o.ports[p].ifaces| == 1 ==> t.g.master.up[t.links[i].value] == main)
      && (|o.ports[p].ifaces| > 1 ==>
            && t.portLinks[p].Some? && t.portLinks[p].value >= |s.g.info|
            && t.g.master.up[t.links[i].value] == t.portLinks[p]
            && t.g.master.up[t.portLinks[p].value] == main)
      && (forall j :: 0 <= j < |o.ifs| && j != i ==> t.links[j] != t.links[i])
      && (forall q :: 0 <= q < |o.ports| ==> t.portLinks[q] != t.links[i])
  {
    hide DistinctNames, WF, ConfigOk, LinkIfaces, Reached, Result, Unsure, MainOf, DeviceAtStart, Listed;
    CoveredExactly(o, s, i);
    EveryIfacePlaced(o, s, i);
    LinkedAsAtStart(o, s, i);
  }

  /** Two patch ports of such bridges that name each other become peers. */
  lemma PatchPortsMeetFromStart(o: Config, s: State, a: nat, b: nat)
    requires OvsTheory.Initial(o, s) && DistinctNames(o) && PatchPair(o, s.g, a, b)
    requires Listed(o, a) && Reached(o, s.g, BridgeOf(o, a))
    requires Listed(o, b) && Reached(o, s.g, BridgeOf(o, b))
    ensures var t := LinkIfaces(o, s, |o.bridges|).s;
      && t.links[a].Some? && t.links[b].Some?
      && t.g.peer[t.links[a].value] == t.links[b] && t.g.peer[t.links[b].value] == t.links[a]
  {
    hide DistinctNames, WF, ConfigOk, LinkIfaces, Reached, PatchPair, Listed;
    CoveredExactly(o, s, a);
    CoveredExactly(o, s, b);
    PatchPortsMeet(o, s, a, b);
  }

  /** Link and weak mark of every interface of such a bridge. A tunnel with a local address is linked,
      weakly, to the interface that alone is up and holds the address in the namespace of the tunnel's
      entry before the pass, and to none if there is no such interface or the address is malformed; other
      interfaces, and tunnels without an address, have what their entry had before. */
  lemma LinksFromStart(o: Config, s: State, i: nat)
    requires OvsTheory.Initial(o, s) && DistinctNames(o)
    requires Listed(o, i) && Reached(o, s.g, BridgeOf(o, i))
    ensures var t := LinkIfaces(o, s, |o.bridges|).s;
      i < |t.links| && t.links[i].Some? && LinkAsAsked(o, s.g, t.g, i, t.links[i].value)
  {
    hide DistinctNames, WF, ConfigOk, LinkIfaces, Reached, Listed, IfaceSettled, Matched, PortSettled, LinkFits,
      PortLinkFits, Inv, Settled, Kept;
    CoveredExactly(o, s, i);
    var r := LinkIfaces(o, s, |o.bridges|);
    LinkIfacesSettles(o, s, |o.bridges|);
    CoveredFacts(o, s.g, r.s, r.resolved, i);
    WantedIsAsked(o, s.g, r.s, i);
  }

  ghost predicate LinkAsAsked(o: Config, g: Graph, h: Graph, i: nat, e: nat) {
    && i < |o.ifs| && e < |h.link.up| && e < |h.marks|
    && var ns := if e < |g.info| then g.info[e].ns else 0;
    && (o.ifs[i].typ in {"vxlan", "geneve", "gre"} && o.ifs[i].localIp.Local? ==>
          && h.marks[e].weakLink
          && forall f: nat :: h.link.up[e] == Some(f) <==> HoldsAlone(g, ns, o.ifs[i].localIp.addr, f))
    && (o.ifs[i].typ in {"vxlan", "geneve", "gre"} && o.ifs[i].localIp.BadLocal? ==>
          h.link.up[e] == None && h.marks[e].weakLink)
    && (o.ifs[i].typ !in {"vxlan", "geneve", "gre"} || o.ifs[i].localIp.NoLocal? ==>
          if e < |g.info|
          then e < |g.link.up| && e < |g.marks| && h.link.up[e] == g.link.up[e]
            && h.marks[e].weakLink == g.marks[e].weakLink
          else h.link.up[e] == None && !h.marks[e].weakLink)
  }

  lemma WantedIsAsked(o: Config, g: Graph, t: State, i: nat)
    requires LinkSettled(o, g, t, i)
    ensures LinkAsAsked(o, g, t.g, i, t.links[i].value)
  {
    hide Holder, HoldsAlone;
    var e := t.links[i].value;
    Sizes(g);
    if e < |g.info| {
      OvsInvariant.SpaceOf(g, e);
    }
    if o.ifs[i].localIp.Local? {
      forall f: nat ensures Holder(g, HomeOf(g, e), o.ifs[i].localIp.addr) == Some(f) <==>
        HoldsAlone(g, HomeOf(g, e), o.ifs[i].localIp.addr, f)
      {
        HolderMeaning(g, HomeOf(g, e), o.ifs[i].localIp.addr, f);
      }
    }
  }

  /** The interfaces for which no device is found, and the ports with several interfaces, of bridges with
      a clear main interface. */
  ghost function NewIfaces(o: Config, g: Graph): set<nat>
    requires ConfigOk(o) && WF(g)
  {
    set i | 0 <= i < |o.ifs| && NeedsEntry(o, g, i)
  }

  ghost predicate NeedsEntry(o: Config, g: Graph, i: nat)
    requires ConfigOk(o) && WF(g) && i < |o.ifs|
  {
    Listed(o, i) && MainClear(o, g, BridgeOf(o, i)) && DeviceAtStart(o, g, i).None?
  }

  ghost function NewPorts(o: Config, g: Graph): set<nat>
    requires ConfigOk(o) && WF(g)
  {
    set p | 0 <= p < |o.ports| && Multi(o, p) && p in o.bridges[o.ports[p].bridge].ports
      && MainClear(o, g, o.ports[p].bridge)
  }

  /** If no bridge is in doubt, the root namespace gains exactly one entry for each of them; other
      namespaces gain none. */
  lemma GrowthFromStart(o: Config, s: State)
    requires OvsTheory.Initial(o, s) && DistinctNames(o) && ClearUpTo(o, s.g, |o.bridges|)
    ensures var t := LinkIfaces(o, s, |o.bridges|).s;
      && |t.g.spaces| == |s.g.spaces|
      && |t.g.spaces[0].ifaces| == |s.g.spaces[0].ifaces| + |NewIfaces(o, s.g)| + |NewPorts(o, s.g)|
      && forall j :: 0 < j < |s.g.spaces| ==> t.g.spaces[j].ifaces == s.g.spaces[j].ifaces
  {
    hide DistinctNames, WF, ConfigOk, LinkIfaces, Reached, NewIfaces, NewPorts, WithoutDevice, Unmatched, Begun,
      MultiPorts;
    var r := LinkIfaces(o, s, |o.bridges|);
    StopsExactly(o, s, |o.bridges|);
    RootGrowth(o, s);
    SameIfaces(o, s);
    SamePorts(o, s);
  }

  lemma ReachedIfClear(o: Config, g: Graph, b: nat)
    requires ConfigOk(o) && WF(g) && ClearUpTo(o, g, |o.bridges|) && b < |o.bridges|
    ensures Reached(o, g, b) <==> MainClear(o, g, b)
  {
    hide BridgeClear, MainClear, ConfigOk, WF;
  }

  lemma SameIfaces(o: Config, s: State)
    requires OvsTheory.Initial(o, s) && DistinctNames(o) && ClearUpTo(o, s.g, |o.bridges|)
    ensures var r := LinkIfaces(o, s, |o.bridges|);
      |r.s.links| == |o.ifs| && WithoutDevice(o, s.g, r.s, r.resolved) == NewIfaces(o, s.g)
  {
    hide DistinctNames, WF, ConfigOk, LinkIfaces, Reached, Unmatched, Begun, MultiPorts, DeviceAtStart, MainClear,
      ClearUpTo;
    var r := LinkIfaces(o, s, |o.bridges|);
    StopsExactly(o, s, |o.bridges|);
    RootGrowth(o, s);
    forall i: nat | i < |o.ifs| ensures i in WithoutDevice(o, s.g, r.s, r.resolved) <==> NeedsEntry(o, s.g, i) {
      if Listed(o, i) {
        ReachedIfClear(o, s.g, BridgeOf(o, i));
        CoveredExactly(o, s, i);
        if Covered(o, r.resolved, i) {
          NewAtStart(o, s, i);
        }
      }
    }
  }

  lemma NewAtStart(o: Config, s: State, i: nat)
    requires OvsTheory.Initial(o, s) && DistinctNames(o) && Covered(o, LinkIfaces(o, s, |o.bridges|).resolved, i)
    ensures var r := LinkIfaces(o, s, |o.bridges|);
      && |r.s.links| == |o.ifs|
      && (i in WithoutDevice(o, s.g, r.s, r.resolved) <==> DeviceAtStart(o, s.g, i).None?)
  {
    hide DistinctNames, WF, ConfigOk, LinkIfaces, Result, Unsure, Eligible, MainOf;
    LinkedAsAtStart(o, s, i);
    EveryIfaceMatched(o, s, i);
    DeviceIsOld(o, s.g, i);
  }

  lemma DeviceIsOld(o: Config, g: Graph, i: nat)
    requires ConfigOk(o) && WF(g) && i < |o.ifs|
    ensures Id(g, DeviceAtStart(o, g, i))
  {
    hide Result, WF;
    var b := BridgeOf(o, i);
    if MainOf(o, b).Some? {
      ResultId(g, MainDevice(o, b), None);
      ResultId(g, ByOvs(KeyOf(o, i, o.bridges[b].netdev, Result(g, MainDevice(o, b), None))), None);
    }
  }

  lemma SamePorts(o: Config, s: State)
    requires OvsTheory.Initial(o, s) && DistinctNames(o) && ClearUpTo(o, s.g, |o.bridges|)
    ensures MultiPorts(o, LinkIfaces(o, s, |o.bridges|).resolved) == NewPorts(o, s.g)
  {
    hide DistinctNames, WF, LinkIfaces, Reached, MainClear, ClearUpTo;
    StopsExactly(o, s, |o.bridges|);
    forall b: nat | b < |o.bridges| ensures Reached(o, s.g, b) <==> MainClear(o, s.g, b) {
      ReachedIfClear(o, s.g, b);
    }
  }

  // ----- an input on which a later bridge is left out

  function Kernel(ns: nat, name: string, driver: string): Info {
    Info(ns, name, None, false, true, Some(driver), [], 0, 0, 0, -1, 0, -1, None)
  }

  /** The devices of two bridges in the root namespace, and an eth0 in each of two others. */
  function SampleGraph(): (g: Graph) {
    var none: seq<Option<nat>> := [None, None, None, None];
    Graph(
      [Kernel(0, "br0", "openvswitch"), Kernel(1, "eth0", "veth"), Kernel(2, "eth0", "veth"),
        Kernel(0, "br1", "openvswitch")],
      Rel(none, [[], [], [], []]), Rel(none, [[], [], [], []]), none,
      [FRESH_MARKS, FRESH_MARKS, FRESH_MARKS, FRESH_MARKS],
      [Space(None, [0, 3], [], 0), Space(Some("a"), [1], [], 0), Space(Some("b"), [2], [], 0)])
  }

  /** Bridge br0 with a port eth0 and bridge br1 with a port eth1, each with its system port. */
  function SampleConfig(): Config {
    Config(
      [OvsIf("br0", "internal", None, NoLocal, 0), OvsIf("eth0", "", None, NoLocal, 1),
       OvsIf("br1", "internal", None, NoLocal, 2), OvsIf("eth1", "", None, NoLocal, 3)],
      [OvsPort("br0", [0], 0), OvsPort("eth0", [1], 0), OvsPort("br1", [2], 1), OvsPort("eth1", [3], 1)],
      [OvsBridge("br0", false, [1], Some(0)), OvsBridge("br1", false, [3], Some(2))],
      {(0, "eth0")})
  }

  function SampleState(): State {
    State(SampleGraph(), [None, None, None, None], [None, None, None, None])
  }

  lemma SampleRelations()
    ensures var g := SampleGraph();
      |g.peer| == 4 && Mirror(g.master) && Mirror(g.link) && Involution(g.peer) && InRange(g.peer)
  {
    var g := SampleGraph();
    assert forall x :: 0 <= x < |g.peer| ==> g.peer[x] == None;
    assert forall x :: 0 <= x < |g.peer| ==> Mutual(g.peer, x);
  }

  lemma SamplePlaced()
    ensures Placed(SampleGraph())
  {
    var g := SampleGraph();
    assert g.spaces[0].ifaces[0] == 0 && g.spaces[0].ifaces[1] == 3;
    assert g.spaces[1].ifaces[0] == 1 && g.spaces[2].ifaces[0] == 2;
    assert |g.spaces| == 3 && g.spaces[0].ids == g.spaces[1].ids == g.spaces[2].ids == [];
  }

  lemma SampleGraphOk()
    ensures WF(SampleGraph())
  {
    hide Mirror, Involution, InRange, Placed;
    SampleRelations();
    SamplePlaced();
  }

  /** Interface `i` is the only one of port `i`, and the ports are those of their bridges. */
  lemma SamplePorts()
    ensures var o := SampleConfig();
      && |o.ifs| == |o.ports| == 4 && |o.bridges| == 2
      && (forall i :: 0 <= i < 4 ==> o.ifs[i].port == i && o.ports[i].ifaces == [i] && o.ports[i].bridge == i / 2)
      && (forall b :: 0 <= b < 2 ==> o.bridges[b].ports == [2 * b + 1] && o.bridges[b].system == Some(2 * b))
  {
  }

  lemma SampleConfigOk()
    ensures ConfigOk(SampleConfig())
  {
    hide SampleConfig;
    SamplePorts();
  }

  lemma SampleNames()
    ensures DistinctNames(SampleConfig())
  {
    var o := SampleConfig();
    assert |o.ifs| == 4 && o.ifs[0].name == "br0" && o.ifs[1].name == "eth0" && o.ifs[2].name == "br1" &&
      o.ifs[3].name == "eth1";
    assert "br0"[2] != "br1"[2] && "eth0"[3] != "eth1"[3];
    assert forall p: nat :: p < |o.ports| ==> |o.ports[p].ifaces| == 1;
  }

  lemma SampleInitial()
    ensures WF(SampleGraph()) && OvsTheory.Initial(SampleConfig(), SampleState())
  {
    hide WF, ConfigOk;
    SampleGraphOk();
    SampleConfigOk();
  }

  /** Only entry `e` answers to the name of bridge `b`'s main interface. */
  lemma SampleMain(b: nat, e: nat)
    requires (b == 0 && e == 0) || (b == 1 && e == 3)
    ensures ConfigOk(SampleConfig()) && WF(SampleGraph()) && MainClear(SampleConfig(), SampleGraph(), b)
    ensures Result(SampleGraph(), MainDevice(SampleConfig(), b), None) == Some(e)
  {
    hide Result, Unsure, WF, ConfigOk;
    SampleGraphOk();
    SampleConfigOk();
    var g, q := SampleGraph(), MainDevice(SampleConfig(), b);
    assert "br0"[2] != "br1"[2];
    ResultMeaning(g, q, None);
    assert Eligible(g, q, None, e);
    assert forall f: nat :: Eligible(g, q, None, f) ==> f == e;
  }

  /** Both eth0 qualify for the interface of that name, and nothing qualifies for eth1. */
  lemma SampleIfaces()
    ensures WF(SampleGraph())
    ensures var o := SampleConfig(); var g := SampleGraph();
      Unsure(g, ByOvs(KeyOf(o, 1, false, Some(0))), None) && !Unsure(g, ByOvs(KeyOf(o, 3, false, Some(3))), None)
  {
    hide Result, Unsure, WF;
    SampleGraphOk();
    var o, g := SampleConfig(), SampleGraph();
    var q := ByOvs(KeyOf(o, 1, false, Some(0)));
    ResultMeaning(g, q, None);
    assert Eligible(g, q, None, 1) && Eligible(g, q, None, 2);
    var r := ByOvs(KeyOf(o, 3, false, Some(3)));
    ResultMeaning(g, r, None);
    assert "eth1"[3] != "eth0"[3];
    assert forall f: nat :: !Eligible(g, r, None, f);
  }

  /** Bridge br1 is clear by itself, but the doubt about eth0 ends the pass before its turn. */
  lemma LaterBridgeLeftOut()
    ensures var o := SampleConfig(); var s := SampleState();
      && OvsTheory.Initial(o, s) && DistinctNames(o)
      && WF(s.g) && MainClear(o, s.g, 1) && BridgeClear(o, s.g, 1)
      && LinkIfaces(o, s, 2).err == ERANGE && LinkIfaces(o, s, 2).resolved == {}
  {
    hide Result, Unsure, WF, ConfigOk, DistinctNames, LinkIfaces, MainDevice, MainOf;
    SampleInitial();
    SampleNames();
    SampleMain(0, 0);
    SampleMain(1, 3);
    SampleIfaces();
    var o, s := SampleConfig(), SampleState();
    assert Listed(o, 1) && BridgeOf(o, 1) == 0 && IfaceQuery(o, s.g, 1) == ByOvs(KeyOf(o, 1, false, Some(0)));
    assert !BridgeClear(o, s.g, 0);
    assert forall i: nat :: Listed(o, i) && BridgeOf(o, i) == 1 ==> i == 3;
    assert Listed(o, 3) && BridgeOf(o, 3) == 1 && IfaceQuery(o, s.g, 3) == ByOvs(KeyOf(o, 3, false, Some(3)));
    StopsExactly(o, s, 2);
    OnlyDoubtStops(o, s, 2);
    DoubtEndsIt(o, s.g, 0);
  }
}
