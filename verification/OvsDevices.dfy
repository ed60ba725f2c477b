/** Which kernel devices the interfaces of completed bridges are linked to: the graph before the pass
    alone decides, for the main interfaces first and through them for the others. */
module OvsDevices {
  import opened Common
  import opened Model
  import opened Ovs
  import opened OvsInvariant
  import opened OvsTheory
  import opened Resolution
  import opened Search

  // ----- a bridge's links are its own business

  function BridgeOf(o: Config, i: nat): nat
    requires ConfigOk(o) && i < |o.ifs|
  {
    o.ports[o.ifs[i].port].bridge
  }

  /** Only links of interfaces of bridge `b` differ. */
  ghost predicate SameElsewhere(o: Config, s: State, t: State, b: nat)
    requires ConfigOk(o)
  {
    && |s.links| == |t.links| == |o.ifs|
    && forall i :: 0 <= i < |o.ifs| && BridgeOf(o, i) != b ==> t.links[i] == s.links[i]
  }

  lemma LinkIfaceFrame(o: Config, s: State, i: nat, netdev: bool, main: Option<nat>, required: bool)
    requires ConfigOk(o) && StateOk(o, s) && i < |o.ifs| && Id(s.g, main)
    ensures SameElsewhere(o, s, LinkIface(o, s, i, netdev, main, required).s, BridgeOf(o, i))
  {
    hide LinkIface, WF, ConfigOk;
    LinkIfaceEffect(o, s, i, netdev, main, required);
  }

  lemma DoIfaceFrame(o: Config, s: State, i: nat, netdev: bool, main: Option<nat>, bridge: string, master: nat)
    requires ConfigOk(o) && StateOk(o, s) && i < |o.ifs| && Id(s.g, main) && master < |s.g.info|
    ensures SameElsewhere(o, s, DoIface(o, s, i, netdev, main, bridge, master).s, BridgeOf(o, i))
  {
    hide LinkIface, Attach, Create, WF, ConfigOk;
    LinkIfaceFrame(o, s, i, netdev, main, false);
  }

  lemma {:induction false} DoIfacesFrame(o: Config, s: State, ids: seq<nat>, b: nat, netdev: bool, main: Option<nat>,
                                         bridge: string, master: nat)
    requires ConfigOk(o) && StateOk(o, s) && AllBelow(ids, |o.ifs|) && Id(s.g, main) && master < |s.g.info|
    requires forall k :: 0 <= k < |ids| ==> BridgeOf(o, ids[k]) == b
    ensures SameElsewhere(o, s, DoIfaces(o, s, ids, netdev, main, bridge, master).s, b)
  {
    hide DoIface, WF, ConfigOk;
    if ids != [] {
      var init := ids[..|ids| - 1];
      DoIfacesFrame(o, s, init, b, netdev, main, bridge, master);
      var r := DoIfaces(o, s, init, netdev, main, bridge, master);
      if r.err == 0 {
        DoIfaceFrame(o, r.s, ids[|ids| - 1], netdev, main, bridge, master);
      }
    }
  }

  lemma DoPortFrame(o: Config, s: State, p: nat, netdev: bool, main: nat, bridge: string)
    requires ConfigOk(o) && StateOk(o, s) && p < |o.ports| && main < |s.g.info|
    ensures SameElsewhere(o, s, DoPort(o, s, p, netdev, main, bridge).s, o.ports[p].bridge)
  {
    hide DoIfaces, WF, ConfigOk, Create, SetMaster;
    PortIfaces(o, p);
    var ids := o.ports[p].ifaces;
    if |ids| > 1 {
      DoIfacesFrame(o, Bond(o, s, p, main, bridge), ids, o.ports[p].bridge, netdev, Some(main), bridge, |s.g.info|);
    } else {
      DoIfacesFrame(o, s, ids, o.ports[p].bridge, netdev, Some(main), bridge, main);
    }
  }

  lemma {:induction false} DoPortsFrame(o: Config, s: State, ps: seq<nat>, b: nat, netdev: bool, main: nat,
                                        bridge: string)
    requires ConfigOk(o) && StateOk(o, s) && AllBelow(ps, |o.ports|) && main < |s.g.info|
    requires forall k :: 0 <= k < |ps| ==> o.ports[ps[k]].bridge == b
    ensures SameElsewhere(o, s, DoPorts(o, s, ps, netdev, main, bridge).s, b)
  {
    hide DoPort, WF, ConfigOk;
    if ps != [] {
      var init := ps[..|ps| - 1];
      DoPortsFrame(o, s, init, b, netdev, main, bridge);
      var r := DoPorts(o, s, init, netdev, main, bridge);
      if r.err == 0 {
        DoPortFrame(o, r.s, ps[|ps| - 1], netdev, main, bridge);
      }
    }
  }

  lemma DoBridgeFrame(o: Config, s: State, b: nat)
    requires ConfigOk(o) && StateOk(o, s) && b < |o.bridges|
    ensures SameElsewhere(o, s, DoBridge(o, s, b).s, b)
  {
    hide LinkIface, DoPorts, WF, ConfigOk, WarnSpace, MainOf;
    if MainOf(o, b).Some? {
      var br := o.bridges[b];
      var i := MainOf(o, b).value;
      MainBridge(o, b);
      LinkIfaceFrame(o, s, i, br.netdev, None, true);
      var r := LinkIface(o, s, i, br.netdev, None, true);
      if r.err != ENOENT && r.err != ERANGE {
        LinkIfaceEffect(o, s, i, br.netdev, None, true);
        BridgePorts(o, b);
        DoPortsFrame(o, r.s, br.ports, b, br.netdev, r.s.links[i].value, br.name);
      }
    }
  }

  lemma MainBridge(o: Config, b: nat)
    requires ConfigOk(o) && b < |o.bridges| && MainOf(o, b).Some?
    ensures BridgeOf(o, MainOf(o, b).value) == b
  {
    PortIfaces(o, o.bridges[b].system.value);
  }

  // ----- main interfaces

  /** The search for the main interface of a bridge. */
  ghost function MainDevice(o: Config, b: nat): Query
    requires ConfigOk(o) && b < |o.bridges| && MainOf(o, b).Some?
  {
    ByOvs(KeyOf(o, MainOf(o, b).value, o.bridges[b].netdev, None))
  }

  /** The main interface of bridge `b` is linked to what an undoubted search of `g0` finds. */
  ghost predicate MainMatched(o: Config, g0: Graph, s: State, b: nat)
    requires ConfigOk(o) && WF(g0) && |s.links| == |o.ifs|
  {
    && b < |o.bridges| && MainOf(o, b).Some? && MainLink(o, s, b).Some?
    && !Unsure(g0, MainDevice(o, b), None) && MainLink(o, s, b) == Result(g0, MainDevice(o, b), None)
  }

  lemma MainMatchedStays(o: Config, g0: Graph, s: State, t: State, b: nat)
    requires ConfigOk(o) && WF(g0) && |s.links| == |o.ifs| && Stable(s, t) && MainMatched(o, g0, s, b)
    ensures MainMatched(o, g0, t, b)
  {
    hide Result, Unsure, WF, ConfigOk, MainOf;
    MainStays(o, s, t, b);
  }

  lemma MainMatchedNow(o: Config, g0: Graph, s: State, b: nat)
    requires Inv(o, g0, s) && DistinctNames(o) && ConfigOk(o) && StateOk(o, s) && WF(g0)
    requires b < |o.bridges| && MainOf(o, b).Some? && MainLink(o, s, b).None?
    requires LinkIface(o, s, MainOf(o, b).value, o.bridges[b].netdev, None, true).err == 0
    ensures MainMatched(o, g0, LinkIface(o, s, MainOf(o, b).value, o.bridges[b].netdev, None, true).s, b)
  {
    hide Inv, DistinctNames, Result, Unsure, WF, ConfigOk;
    SearchAsBefore(o, g0, s, MainOf(o, b).value, o.bridges[b].netdev, None);
  }

  // ----- all bridges

  /** Bridges from `n` on have not been looked at. */
  ghost predicate Unseen(o: Config, s: State, n: nat)
    requires ConfigOk(o) && |s.links| == |o.ifs|
  {
    forall b :: n <= b < |o.bridges| ==> MainLink(o, s, b).None?
  }

  lemma UnseenStays(o: Config, s: State, t: State, n: nat)
    requires ConfigOk(o) && |s.links| == |o.ifs| && SameElsewhere(o, s, t, n) && Unseen(o, s, n)
    ensures Unseen(o, t, n + 1)
  {
    hide ConfigOk, MainOf;
    forall b | n + 1 <= b < |o.bridges| ensures MainLink(o, t, b).None? {
      assert MainLink(o, s, b).None?;
      if MainOf(o, b).Some? {
        MainBridge(o, b);
      }
    }
  }

  ghost predicate MainsMatched(o: Config, g0: Graph, s: State, bs: set<nat>)
    requires ConfigOk(o) && WF(g0) && |s.links| == |o.ifs|
  {
    forall b {:trigger b in bs} :: b in bs ==> MainMatched(o, g0, s, b)
  }

  lemma MainsStay(o: Config, g0: Graph, s: State, t: State, bs: set<nat>)
    requires ConfigOk(o) && WF(g0) && |s.links| == |o.ifs| && Stable(s, t) && MainsMatched(o, g0, s, bs)
    ensures MainsMatched(o, g0, t, bs)
  {
    hide MainMatched, WF, ConfigOk;
    forall b {:trigger b in bs} | b in bs ensures MainMatched(o, g0, t, b) {
      MainMatchedStays(o, g0, s, t, b);
    }
  }

  lemma DoBridgeMatches(o: Config, g0: Graph, s: State, bs: set<nat>, b: nat)
    requires BridgesDone(o, g0, s, bs) && DistinctNames(o) && b < |o.bridges| && b !in bs
    requires StateOk(o, s) && WF(g0) && MainLink(o, s, b).None?
    ensures var r := DoBridge(o, s, b);
      Stable(s, r.s) && (r.resolved ==> MainMatched(o, g0, r.s, b))
  {
    hide Settled, Kept, Inv, WF, DistinctNames, DoPorts, ConfigOk, Members, PortsOf, LinkIface, MainMatched;
    var dp := PortsOf(o, bs);
    SettledFacts(o, g0, s, Members(o, dp), dp);
    if MainOf(o, b).Some? {
      var br := o.bridges[b];
      var i := MainOf(o, b).value;
      var r := LinkIface(o, s, i, br.netdev, None, true);
      LinkIfaceEffect(o, s, i, br.netdev, None, true);
      MainNotListed(o, b);
      MainSearchKeeps(o, g0, s, bs, i, br.netdev);
      if r.err == 0 {
        MainMatchedNow(o, g0, s, b);
        BridgePorts(o, b);
        PortsOfBridge(o, bs, b);
        SettledFacts(o, g0, r.s, Members(o, dp), dp);
        DoPortsSettles(o, g0, r.s, dp, b, br.ports, r.s.links[i].value, br.name);
        var q := DoPorts(o, r.s, br.ports, br.netdev, r.s.links[i].value, br.name);
        StableTrans(s, r.s, q.s);
        MainMatchedStays(o, g0, r.s, q.s, b);
      }
    }
  }

  lemma {:induction false} LinkIfacesMatches(o: Config, s: State, n: nat)
    requires OvsTheory.Initial(o, s) && DistinctNames(o) && n <= |o.bridges|
    ensures WF(s.g)
    ensures var r := LinkIfaces(o, s, n);
      && |r.s.links| == |o.ifs| && MainsMatched(o, s.g, r.s, r.resolved) && (r.err == 0 ==> Unseen(o, r.s, n))
  {
    hide DoBridge, DistinctNames, WF, Settled, Kept, MainMatched, ConfigOk, MainOf;
    if n > 0 {
      LinkIfacesMatches(o, s, n - 1);
      LinkIfacesSettles(o, s, n - 1);
      var r := LinkIfaces(o, s, n - 1);
      if r.err == 0 {
        DoBridgeMatches(o, s.g, r.s, r.resolved, n - 1);
        DoBridgeFrame(o, r.s, n - 1);
        UnseenStays(o, r.s, DoBridge(o, r.s, n - 1).s, n - 1);
        MainsStay(o, s.g, r.s, DoBridge(o, r.s, n - 1).s, r.resolved);
      }
    }
  }

  // ----- the links as a function of the graph before the pass

  /** What the searches make of interface `i` when both are made before the pass. */
  ghost function DeviceAtStart(o: Config, g: Graph, i: nat): Option<nat>
    requires ConfigOk(o) && WF(g) && i < |o.ifs|
  {
    var b := BridgeOf(o, i);
    if MainOf(o, b).None? then None
    else
      ResultId(g, MainDevice(o, b), None);
      var main := Result(g, MainDevice(o, b), None);
      Result(g, ByOvs(KeyOf(o, i, o.bridges[b].netdev, main)), None)
  }

  /** Whatever order bridges, ports and interfaces come in, and wherever the pass ends: the main
      interface of a completed bridge is linked to what its search finds in the graph before the
      pass, and each interface of such a bridge to what a second search finds in that same graph, or
      to a new entry if that finds nothing. Neither search is in doubt. */
  lemma LinkedAsAtStart(o: Config, s: State, i: nat)
    requires OvsTheory.Initial(o, s) && DistinctNames(o)
    requires Covered(o, LinkIfaces(o, s, |o.bridges|).resolved, i)
    ensures var t := LinkIfaces(o, s, |o.bridges|).s; var device := DeviceAtStart(o, s.g, i);
      && WF(s.g) && |t.links| == |o.ifs| && t.links[i].Some?
      && MainMatched(o, s.g, t, BridgeOf(o, i))
      && (if device.Some? then t.links[i] == device else t.links[i].value >= |s.g.info|)
  {
    hide LinkIfaces, WF, DistinctNames, Inv, Kept, Settled, Result, Unsure, ConfigOk, MainOf, Listed;
    var r := LinkIfaces(o, s, |o.bridges|);
    LinkIfacesSettles(o, s, |o.bridges|);
    LinkIfacesMatches(o, s, |o.bridges|);
    CoveredFacts(o, s.g, r.s, r.resolved, i);
    assert BridgeOf(o, i) in r.resolved;
    assert MainMatched(o, s.g, r.s, BridgeOf(o, i));
  }
}
