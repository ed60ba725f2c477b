/** What link_ifaces achieves: one distinct entry per interface, parents as configured, exact
    growth of the root namespace, and patch ports paired whichever end is visited first. */
module OvsTheory {
  import opened Common
  import opened Model
  import opened Ovs
  import opened OvsInvariant
  import opened Resolution
  import opened Search
  import opened Tunnel

  // ----- the loops

  function Elems(ids: seq<nat>): set<nat> {
    set i | i in ids
  }

  lemma StableTrans(a: State, b: State, c: State)
    requires Stable(a, b) && Stable(b, c)
    ensures Stable(a, c)
  {
  }

  lemma ReadyStays(o: Config, s: State, t: State, di: set<nat>, more: set<nat>, i: nat, b: nat, master: nat)
    requires ConfigOk(o) && |s.links| == |o.ifs| && |s.portLinks| == |o.ports|
    requires Stable(s, t) && CanTreat(o, s, di, i, b, master) && i !in more
    ensures CanTreat(o, t, di + more, i, b, master) && MainLink(o, t, b) == MainLink(o, s, b)
  {
    MainStays(o, s, t, b);
  }

  lemma {:induction false} DoIfacesSettles(o: Config, g0: Graph, s: State, di: set<nat>, dp: set<nat>, ids: seq<nat>,
                                           b: nat, bridge: string, master: nat)
    requires Settled(o, g0, s, di, dp) && DistinctNames(o) && AllBelow(ids, |o.ifs|) && NoDup(ids)
    requires b < |o.bridges| && Id(s.g, MainLink(o, s, b)) && master < |s.g.info| && bridge == o.bridges[b].name
    requires forall k :: 0 <= k < |ids| ==> CanTreat(o, s, di, ids[k], b, master)
    ensures var r := DoIfaces(o, s, ids, o.bridges[b].netdev, MainLink(o, s, b), bridge, master);
      After(o, g0, r, di, dp, Elems(ids), {}) && Stable(s, r.s)
  {
    hide DoIface, DoIfaces, Inv, WF, DistinctNames, Settled, Kept, CanTreat, MainLink, StateOk, ConfigOk, AllBelow,
      NoDup, Elems;
    SettledFacts(o, g0, s, di, dp);
    var netdev, main := o.bridges[b].netdev, MainLink(o, s, b);
    DoIfacesLast(o, s, ids, netdev, main, bridge, master);
    ElemsLast(ids, |o.ifs|);
    assert dp + {} == dp;
    if ids == [] {
      assert di + Elems(ids) == di;
    } else {
      var init := ids[..|ids| - 1];
      var i := ids[|ids| - 1];
      DoIfacesSettles(o, g0, s, di, dp, init, b, bridge, master);
      var q := DoIfaces(o, s, init, netdev, main, bridge, master);
      if q.err == 0 {
        ReadyStays(o, s, q.s, di, Elems(init), i, b, master);
        DoIfaceSettles(o, g0, q.s, di + Elems(init), dp, i, b, bridge, master);
        var r := DoIfaces(o, s, ids, netdev, main, bridge, master);
        StableTrans(s, q.s, r.s);
        assert di + Elems(ids) == di + Elems(init) + {i};
        if r.err != 0 {
          KeptLess(o, g0, r.s, di + Elems(init), dp, di, dp);
        }
      }
    }
  }

  lemma DoIfacesLast(o: Config, s: State, ids: seq<nat>, netdev: bool, main: Option<nat>, bridge: string, master: nat)
    requires StateOk(o, s) && AllBelow(ids, |o.ifs|) && Id(s.g, main) && master < |s.g.info|
    ensures ids == [] ==> DoIfaces(o, s, ids, netdev, main, bridge, master) == Res(s, 0)
    ensures ids != [] ==>
      var q := DoIfaces(o, s, ids[..|ids| - 1], netdev, main, bridge, master);
      && Id(q.s.g, main) && master < |q.s.g.info|
      && DoIfaces(o, s, ids, netdev, main, bridge, master) ==
           if q.err != 0 then q else DoIface(o, q.s, ids[|ids| - 1], netdev, main, bridge, master)
  {
    hide DoIface, WF;
  }

  lemma ElemsLast(ids: seq<nat>, n: nat)
    requires AllBelow(ids, n) && NoDup(ids)
    ensures ids == [] ==> Elems(ids) == {}
    ensures ids != [] ==>
      var init := ids[..|ids| - 1]; var i := ids[|ids| - 1];
      AllBelow(init, n) && NoDup(init) && i < n && i !in Elems(init) && Elems(ids) == Elems(init) + {i}
  {
    if ids != [] {
      assert ids == ids[..|ids| - 1] + [ids[|ids| - 1]];
    }
  }

  lemma SettledFacts(o: Config, g0: Graph, s: State, di: set<nat>, dp: set<nat>)
    requires Settled(o, g0, s, di, dp)
    ensures Inv(o, g0, s) && ConfigOk(o) && StateOk(o, s) && |s.links| == |o.ifs| && |s.portLinks| == |o.ports|
    ensures WF(s.g) && |s.g.spaces| > 0
  {
  }

  lemma BondEffect(o: Config, g0: Graph, s: State, p: nat, main: nat, bridge: string)
    requires Inv(o, g0, s) && Multi(o, p) && main < |s.g.info| && |s.portLinks| == |o.ports| && s.portLinks[p].None?
    requires o.ports[p].bridge < |o.bridges| && bridge == o.bridges[o.ports[p].bridge].name
    ensures var t := Bond(o, s, p, main, bridge); var n := |s.g.info|;
      && Inv(o, g0, t) && Stable(s, t) && t.links == s.links && t.portLinks == s.portLinks[p := Some(n)]
      && |s.g.master.up| == n && |t.g.master.up| == n + 1 && t.g.master.up[n] == Some(main)
      && (forall x :: 0 <= x < n ==> t.g.master.up[x] == s.g.master.up[x])
      && t.g.peer == s.g.peer + [None] && SameLinks(s.g, t.g, n)
  {
    var n := |s.g.info|;
    Sizes(s.g);
    CreateForPort(o, g0, s, p, bridge);
    CreateEffect(o, s, o.ports[p].name, bridge);
    var c := Create(o, s, o.ports[p].name, bridge).(portLinks := s.portLinks[p := Some(n)]);
    Sizes(c.g);
    SetUpKeepsMirror(c.g.master, Some(main), n);
    var h := SetMaster(c.g, Some(main), n);
    assert c.(g := h) == Bond(o, s, p, main, bridge);
    PeersCarried(o, g0, c, c.(g := h));
    hide WF, ConfigOk, LinkFits, PortLinkFits, Accounted, Untouched, PeerKept, Create, Bond, SetMaster;
    ReparentKeeps(o, g0, c, h, n);
  }

  lemma BondSettles(o: Config, g0: Graph, s: State, di: set<nat>, dp: set<nat>, p: nat, main: nat, bridge: string)
    requires Settled(o, g0, s, di, dp) && DistinctNames(o) && p < |o.ports| && Multi(o, p) && p !in dp
    requires main < |s.g.info| && MainLink(o, s, o.ports[p].bridge) == Some(main)
    requires bridge == o.bridges[o.ports[p].bridge].name
    ensures var t := Bond(o, s, p, main, bridge);
      && Settled(o, g0, t, di, dp + {p}) && Stable(s, t) && t.portLinks[p] == Some(|s.g.info|)
  {
    hide Inv, WF, DistinctNames, Bond, Matched, ConfigOk, Listed;
    KeptFacts(o, g0, s, di, dp);
    BondEffect(o, g0, s, p, main, bridge);
    var t := Bond(o, s, p, main, bridge);
    LinksInRange(o, g0, s);
    SettledStays(o, g0, s, t, di, dp, |s.g.info|);
    PairsKept(o, g0, s, t);
    MainStays(o, s, t, o.ports[p].bridge);
  }

  /** The interfaces listed by the ports in `ps`. */
  ghost function Members(o: Config, ps: set<nat>): set<nat>
    requires ConfigOk(o)
  {
    set i: nat | i < |o.ifs| && o.ifs[i].port in ps && i in o.ports[o.ifs[i].port].ifaces
  }

  lemma MembersOfPort(o: Config, dp: set<nat>, p: nat)
    requires ConfigOk(o) && p < |o.ports| && p !in dp
    ensures Members(o, dp + {p}) == Members(o, dp) + Elems(o.ports[p].ifaces)
    ensures forall k :: 0 <= k < |o.ports[p].ifaces| ==> o.ports[p].ifaces[k] !in Members(o, dp)
  {
    var ids := o.ports[p].ifaces;
    forall i | i in ids ensures i < |o.ifs| && o.ifs[i].port == p {
      var k :| 0 <= k < |ids| && ids[k] == i;
      assert o.ports[p].ifaces[k] == i;
    }
    assert forall k :: 0 <= k < |ids| ==> ids[k] in ids;
  }

  /** Likewise for steps that treat ports with all their interfaces. */
  ghost predicate PortsAfter(o: Config, g0: Graph, r: Res, dp: set<nat>, more: set<nat>)
    requires ConfigOk(o)
  {
    if r.err == 0 then Settled(o, g0, r.s, Members(o, dp + more), dp + more) else Kept(o, g0, r.s, Members(o, dp), dp)
  }

  lemma IfacesReady(o: Config, s: State, p: nat, b: nat, di: set<nat>, master: nat)
    requires ConfigOk(o) && b < |o.bridges| && |s.links| == |o.ifs| && |s.portLinks| == |o.ports|
    requires p in o.bridges[b].ports && p < |o.ports| && b == o.ports[p].bridge && MainLink(o, s, b).Some?
    requires (if Multi(o, p) then s.portLinks[p] else MainLink(o, s, b)) == Some(master)
    requires forall k :: 0 <= k < |o.ports[p].ifaces| ==> o.ports[p].ifaces[k] !in di
    ensures forall k :: 0 <= k < |o.ports[p].ifaces| ==> CanTreat(o, s, di, o.ports[p].ifaces[k], b, master)
  {
    PortIfaces(o, p);
  }

  lemma DoPortSettles(o: Config, g0: Graph, s: State, dp: set<nat>, p: nat, b: nat, main: nat, bridge: string)
    requires ConfigOk(o) && Settled(o, g0, s, Members(o, dp), dp) && DistinctNames(o) && p < |o.ports| && p !in dp
    requires b == o.ports[p].bridge && b < |o.bridges| && p in o.bridges[b].ports
    requires main < |s.g.info| && MainLink(o, s, b) == Some(main) && bridge == o.bridges[b].name
    ensures var r := DoPort(o, s, p, o.bridges[b].netdev, main, bridge);
      PortsAfter(o, g0, r, dp, {p}) && Stable(s, r.s)
  {
    hide Inv, WF, DistinctNames, DoIfaces, Bond, ConfigOk, Kept, Settled, StateOk, MainLink, Members, CanTreat;
    assert dp + {p} + {} == dp + {p};
    var netdev := o.bridges[b].netdev;
    var ids := o.ports[p].ifaces;
    PortIfaces(o, p);
    MembersOfPort(o, dp, p);
    SettledFacts(o, g0, s, Members(o, dp), dp);
    if |ids| > 1 {
      BondSettles(o, g0, s, Members(o, dp), dp, p, main, bridge);
      var t := Bond(o, s, p, main, bridge);
      SettledFacts(o, g0, t, Members(o, dp), dp + {p});
      MainStays(o, s, t, b);
      IfacesReady(o, t, p, b, Members(o, dp), |s.g.info|);
      DoIfacesSettles(o, g0, t, Members(o, dp), dp + {p}, ids, b, bridge, |s.g.info|);
      var r := DoPort(o, s, p, netdev, main, bridge);
      StableTrans(s, t, r.s);
      if r.err != 0 {
        KeptLess(o, g0, r.s, Members(o, dp), dp + {p}, Members(o, dp), dp);
      }
    } else {
      PortTrivial(o, g0, s, dp, p);
      IfacesReady(o, s, p, b, Members(o, dp), main);
      DoIfacesSettles(o, g0, s, Members(o, dp), dp + {p}, ids, b, bridge, main);
      var r := DoPort(o, s, p, netdev, main, bridge);
      if r.err != 0 {
        KeptLess(o, g0, r.s, Members(o, dp), dp + {p}, Members(o, dp), dp);
      }
    }
  }

  lemma PortTrivial(o: Config, g0: Graph, s: State, dp: set<nat>, p: nat)
    requires ConfigOk(o) && Settled(o, g0, s, Members(o, dp), dp) && p < |o.ports| && !Multi(o, p)
    ensures Settled(o, g0, s, Members(o, dp), dp + {p})
  {
    hide Inv, IfaceSettled, Matched;
    SettledFacts(o, g0, s, Members(o, dp), dp);
    forall q {:trigger q in dp} | q in dp + {p} ensures PortSettled(o, s, q) {
      if q in dp {
        assert PortSettled(o, s, q);
      }
    }
  }

  lemma MembersMore(o: Config, dp: set<nat>, more: set<nat>)
    requires ConfigOk(o) && dp <= more
    ensures Members(o, dp) <= Members(o, more)
  {
  }

  lemma {:induction false} DoPortsSettles(o: Config, g0: Graph, s: State, dp: set<nat>, b: nat, ps: seq<nat>,
                                          main: nat, bridge: string)
    requires ConfigOk(o) && Settled(o, g0, s, Members(o, dp), dp) && DistinctNames(o) && AllBelow(ps, |o.ports|) &&
      NoDup(ps)
    requires b < |o.bridges| && main < |s.g.info| && MainLink(o, s, b) == Some(main) && bridge == o.bridges[b].name
    requires forall k :: 0 <= k < |ps| ==> ps[k] !in dp && o.ports[ps[k]].bridge == b && ps[k] in o.bridges[b].ports
    ensures var r := DoPorts(o, s, ps, o.bridges[b].netdev, main, bridge);
      PortsAfter(o, g0, r, dp, Elems(ps)) && Stable(s, r.s)
  {
    hide Inv, WF, DistinctNames, DoPort, ConfigOk, StateOk, MainLink, Members, Settled, Kept;
    SettledFacts(o, g0, s, Members(o, dp), dp);
    var netdev := o.bridges[b].netdev;
    if ps == [] {
      assert dp + Elems(ps) == dp;
    } else {
      var init := ps[..|ps| - 1];
      var p := ps[|ps| - 1];
      assert ps == init + [p];
      DoPortsSettles(o, g0, s, dp, b, init, main, bridge);
      var q := DoPorts(o, s, init, netdev, main, bridge);
      if q.err == 0 {
        MainStays(o, s, q.s, b);
        DoPortSettles(o, g0, q.s, dp + Elems(init), p, b, main, bridge);
        var r := DoPorts(o, s, ps, netdev, main, bridge);
        StableTrans(s, q.s, r.s);
        assert dp + Elems(ps) == dp + Elems(init) + {p};
        if r.err != 0 {
          MembersMore(o, dp, dp + Elems(init));
          KeptLess(o, g0, r.s, Members(o, dp + Elems(init)), dp + Elems(init), Members(o, dp), dp);
        }
      }
    }
  }

  /** The ports of the given bridges, their system ports left out. */
  ghost function PortsOf(o: Config, bs: set<nat>): set<nat> {
    set p: nat | p < |o.ports| && o.ports[p].bridge in bs && o.ports[p].bridge < |o.bridges| &&
      p in o.bridges[o.ports[p].bridge].ports
  }

  lemma PortsOfBridge(o: Config, bs: set<nat>, b: nat)
    requires ConfigOk(o) && b < |o.bridges| && b !in bs
    ensures PortsOf(o, bs + {b}) == PortsOf(o, bs) + Elems(o.bridges[b].ports)
    ensures forall k :: 0 <= k < |o.bridges[b].ports| ==> o.bridges[b].ports[k] !in PortsOf(o, bs)
  {
    var ps := o.bridges[b].ports;
    forall p | p in ps ensures p < |o.ports| && o.ports[p].bridge == b {
      var k :| 0 <= k < |ps| && ps[k] == p;
      assert o.bridges[b].ports[k] == p;
    }
    assert forall k :: 0 <= k < |ps| ==> ps[k] in ps;
  }

  /** Everything promised about the bridges in `bs`, also after an error in a later one. */
  ghost predicate BridgesKept(o: Config, g0: Graph, s: State, bs: set<nat>) {
    ConfigOk(o) && Kept(o, g0, s, Members(o, PortsOf(o, bs)), PortsOf(o, bs))
  }

  /** The same, and nothing was begun behind them. */
  ghost predicate BridgesDone(o: Config, g0: Graph, s: State, bs: set<nat>) {
    ConfigOk(o) && Settled(o, g0, s, Members(o, PortsOf(o, bs)), PortsOf(o, bs))
  }

  lemma WarnKeeps(o: Config, g0: Graph, s: State, bs: set<nat>)
    requires BridgesDone(o, g0, s, bs) && WF(s.g) && |s.g.spaces| > 0
    ensures BridgesDone(o, g0, s.(g := WarnSpace(s.g, 0)), bs)
  {
    Sizes(s.g);
    var h := WarnSpace(s.g, 0);
    hide LinkFits, PortLinkFits, Accounted, Untouched, WF, Members, PortsOf, IfaceSettled, PortSettled, ConfigOk,
      Matched;
    Keeps0(o, g0, s, h);
    SettledStays(o, g0, s, s.(g := h), Members(o, PortsOf(o, bs)), PortsOf(o, bs), |s.g.info|);
    PairsKept(o, g0, s, s.(g := h));
  }

  lemma Keeps0(o: Config, g0: Graph, s: State, h: Graph)
    requires Inv(o, g0, s) && WF(h) && h.info == s.g.info && SameLists(s.g, h) && h.master == s.g.master &&
      h.link == s.g.link && h.marks == s.g.marks && h.peer == s.g.peer && SameNames(s.g, h)
    ensures Inv(o, g0, s.(g := h))
    ensures |s.links| == |o.ifs| && forall i :: 0 <= i < |s.links| && s.links[i].Some? ==> s.links[i].value < |s.g.info|
    ensures |s.portLinks| == |o.ports| && forall p :: 0 <= p < |s.portLinks| && s.portLinks[p].Some? ==>
      s.portLinks[p].value < |s.g.info|
  {
    var t := s.(g := h);
    hide WF, ConfigOk;
    forall j | 0 <= j < |o.ifs| ensures LinkFits(o, g0, t, j) {
      assert LinkFits(o, g0, s, j);
    }
    forall p | 0 <= p < |o.ports| ensures PortLinkFits(o, g0, t, p) {
      assert PortLinkFits(o, g0, s, p);
    }
    forall x | |g0.info| <= x < |t.g.info| ensures Accounted(t, x) {
      assert Accounted(s, x);
    }
    forall x | 0 <= x < |g0.info| ensures Untouched(o, g0, t, x) {
      assert Untouched(o, g0, s, x);
    }
    PeersCarried(o, g0, s, t);
  }

  lemma MainSearchKeeps(o: Config, g0: Graph, s: State, bs: set<nat>, i: nat, netdev: bool)
    requires BridgesDone(o, g0, s, bs) && DistinctNames(o) && i < |o.ifs| && !Listed(o, i) && StateOk(o, s)
    ensures BridgesDone(o, g0, LinkIface(o, s, i, netdev, None, true).s, bs)
    ensures Stable(s, LinkIface(o, s, i, netdev, None, true).s)
  {
    hide LinkIface, Inv, Kept, WF, Members, PortsOf, ConfigOk, DistinctNames;
    LinkIfaceEffect(o, s, i, netdev, None, true);
    SearchKeeps(o, g0, s, Members(o, PortsOf(o, bs)), PortsOf(o, bs), i, netdev, None, true);
  }

  lemma MainNotListed(o: Config, b: nat)
    requires ConfigOk(o) && b < |o.bridges| && MainOf(o, b).Some?
    ensures !Listed(o, MainOf(o, b).value)
  {
    PortIfaces(o, o.bridges[b].system.value);
  }

  lemma DoBridgeSettles(o: Config, g0: Graph, s: State, bs: set<nat>, b: nat)
    requires BridgesDone(o, g0, s, bs) && DistinctNames(o) && b < |o.bridges| && b !in bs && StateOk(o, s)
    ensures var r := DoBridge(o, s, b);
      if r.err == 0 then BridgesDone(o, g0, r.s, if r.resolved then bs + {b} else bs)
      else BridgesKept(o, g0, r.s, bs) && !r.resolved
  {
    hide Settled, Kept, Inv, WF, DistinctNames, DoPorts, ConfigOk, Members, PortsOf, LinkIface;
    var dp := PortsOf(o, bs);
    SettledFacts(o, g0, s, Members(o, dp), dp);
    if MainOf(o, b).None? {
      WarnKeeps(o, g0, s, bs);
    } else {
      var br := o.bridges[b];
      var i := MainOf(o, b).value;
      var r := LinkIface(o, s, i, br.netdev, None, true);
      LinkIfaceEffect(o, s, i, br.netdev, None, true);
      MainNotListed(o, b);
      MainSearchKeeps(o, g0, s, bs, i, br.netdev);
      if r.err == 0 {
        BridgePorts(o, b);
        PortsOfBridge(o, bs, b);
        SettledFacts(o, g0, r.s, Members(o, dp), dp);
        DoPortsSettles(o, g0, r.s, dp, b, br.ports, r.s.links[i].value, br.name);
      }
    }
  }

  /** Nothing is linked before the pass. */
  ghost predicate Initial(o: Config, s: State) {
    && ConfigOk(o) && StateOk(o, s)
    && (forall i :: 0 <= i < |s.links| ==> s.links[i].None?)
    && (forall p :: 0 <= p < |s.portLinks| ==> s.portLinks[p].None?)
  }

  lemma InitialDone(o: Config, s: State)
    requires Initial(o, s)
    ensures BridgesDone(o, s.g, s, {})
  {
    assert PortsOf(o, {}) == {};
    assert Members(o, {}) == {};
    forall i | 0 <= i < |o.ifs| ensures LinkFits(o, s.g, s, i) {
    }
    forall p | 0 <= p < |o.ports| ensures PortLinkFits(o, s.g, s, p) {
    }
    assert s.g.info[..|s.g.info|] == s.g.info;
    assert Grown(s.g, s.g);
    forall x | 0 <= x < |s.g.info| ensures Untouched(o, s.g, s, x) && PeerKept(o, s.g, s, x) {
    }
  }

  /** Whether or not an error ends the pass, the bridges treated to the end are done. */
  lemma {:induction false} LinkIfacesSettles(o: Config, s: State, n: nat)
    requires Initial(o, s) && DistinctNames(o) && n <= |o.bridges|
    ensures var r := LinkIfaces(o, s, n);
      && (forall b {:trigger b in r.resolved} :: b in r.resolved ==> b < n)
      && BridgesKept(o, s.g, r.s, r.resolved) && (r.err == 0 ==> BridgesDone(o, s.g, r.s, r.resolved))
  {
    hide Settled, Kept, DoBridge, DistinctNames, ConfigOk, StateOk;
    if n == 0 {
      InitialDone(o, s);
      SettledIsKept(o, s.g, s, {});
    } else {
      LinkIfacesSettles(o, s, n - 1);
      var r := LinkIfaces(o, s, n - 1);
      if r.err == 0 {
        DoBridgeSettles(o, s.g, r.s, r.resolved, n - 1);
        var q := LinkIfaces(o, s, n);
        if q.err == 0 {
          SettledIsKept(o, s.g, q.s, q.resolved);
        }
      }
    }
  }

  lemma SettledIsKept(o: Config, g0: Graph, s: State, bs: set<nat>)
    requires BridgesDone(o, g0, s, bs)
    ensures BridgesKept(o, g0, s, bs)
  {
    hide Kept, Members, PortsOf, ConfigOk;
  }

  // ----- the outcome

  /** Interface `i` belongs to a port of a bridge that was treated to the end. */
  ghost predicate Covered(o: Config, resolved: set<nat>, i: nat) {
    Listed(o, i) && o.ports[o.ifs[i].port].bridge in resolved
  }

  lemma CoveredFacts(o: Config, g0: Graph, s: State, bs: set<nat>, i: nat)
    requires BridgesKept(o, g0, s, bs) && Covered(o, bs, i)
    ensures Inv(o, g0, s) && ConfigOk(o) && WF(g0) && StateOk(o, s) && |s.links| == |o.ifs| &&
      |s.portLinks| == |o.ports|
    ensures IfaceSettled(o, s, i) && Matched(o, g0, s, i) && LinkSettled(o, g0, s, i)
    ensures PortSettled(o, s, o.ifs[i].port)
    ensures LinkFits(o, g0, s, i) && PortLinkFits(o, g0, s, o.ifs[i].port)
    ensures |o.ports[o.ifs[i].port].ifaces| >= 1
  {
    hide IfaceSettled, Matched, LinkSettled, PortSettled, LinkFits, PortLinkFits, WF, Accounted, Untouched;
    assert o.ifs[i].port in PortsOf(o, bs) && i in Members(o, PortsOf(o, bs));
  }

  /** Whether or not an error ends the pass, every covered interface has an entry of its own and of
      its name, hanging under its bridge's entry or under the entry made for its port, which itself
      hangs under the bridge's. */
  lemma EveryIfacePlaced(o: Config, s: State, i: nat)
    requires Initial(o, s) && DistinctNames(o)
    requires Covered(o, LinkIfaces(o, s, |o.bridges|).resolved, i)
    ensures var t := LinkIfaces(o, s, |o.bridges|).s; var p := o.ifs[i].port; var b := o.ports[p].bridge;
      && t.links[i].Some? && t.g.info[t.links[i].value].name == o.ifs[i].name
      && MainLink(o, t, b).Some?
      && (|o.ports[p].ifaces| == 1 ==> t.g.master.up[t.links[i].value] == MainLink(o, t, b))
      && (|o.ports[p].ifaces| > 1 ==>
            && t.portLinks[p].Some? && t.portLinks[p].value >= |s.g.info|
            && t.g.master.up[t.links[i].value] == t.portLinks[p]
            && t.g.master.up[t.portLinks[p].value] == MainLink(o, t, b))
      && (forall j :: 0 <= j < |o.ifs| && j != i ==> t.links[j] != t.links[i])
      && (forall q :: 0 <= q < |o.ports| ==> t.portLinks[q] != t.links[i])
      && (t.links[i].value >= |s.g.info| ==>
            t.g.info[t.links[i].value] == InternalInfo(o.ifs[i].name, o.bridges[b].name))
      && (|o.ports[p].ifaces| > 1 ==>
            t.g.info[t.portLinks[p].value] == InternalInfo(o.ports[p].name, o.bridges[b].name))
  {
    hide LinkIfaces, WF, DistinctNames, Inv, Matched, Kept, Settled, ConfigOk, Listed;
    var r := LinkIfaces(o, s, |o.bridges|);
    LinkIfacesSettles(o, s, |o.bridges|);
    CoveredFacts(o, s.g, r.s, r.resolved, i);
    DistinctEntries(o, s.g, r.s);
  }

  /** The search for the kernel device of interface `i` of a bridge whose main interface is linked. */
  ghost function Device(o: Config, t: State, i: nat): (q: Query)
    requires ConfigOk(o) && i < |o.ifs| && |t.links| == |o.ifs|
  {
    var b := o.ports[o.ifs[i].port].bridge;
    ByOvs(KeyOf(o, i, o.bridges[b].netdev, MainLink(o, t, b)))
  }

  /** Under the entry of its bridge's main interface, which entry a covered interface gets is a matter
      of the graph before the pass: a new one exactly if no entry of that graph qualifies as its
      kernel device, and otherwise the one that scores higher than all others. */
  lemma EveryIfaceMatched(o: Config, s: State, i: nat)
    requires Initial(o, s) && DistinctNames(o)
    requires Covered(o, LinkIfaces(o, s, |o.bridges|).resolved, i)
    ensures var t := LinkIfaces(o, s, |o.bridges|).s;
      && WF(s.g) && |t.links| == |o.ifs| && t.links[i].Some?
      && var q := Device(o, t, i); var e := t.links[i].value;
      && q.key.main.Some? && Sane(s.g, q)
      && (e >= |s.g.info| <==> forall f: nat :: !Eligible(s.g, q, None, f))
      && (e < |s.g.info| ==>
            && Eligible(s.g, q, None, e)
            && forall f: nat :: Eligible(s.g, q, None, f) && f != e ==> Score(s.g, q, f) < Score(s.g, q, e))
  {
    hide LinkIfaces, WF, DistinctNames, Inv, Kept, Settled, Result, Unsure, Score, ConfigOk, Listed;
    var r := LinkIfaces(o, s, |o.bridges|);
    LinkIfacesSettles(o, s, |o.bridges|);
    CoveredFacts(o, s.g, r.s, r.resolved, i);
    ResultMeaning(s.g, Device(o, r.s, i), None);
  }

  /** An entry that no interface was linked to keeps its master, one that no tunnel interface was
      linked to keeps its link and weak mark, and a pair keeps together unless one of them is an end of a patch
      cable. All keep the namespace they point to. */
  lemma OthersKeepRelations(o: Config, s: State, e: nat)
    requires Initial(o, s) && DistinctNames(o) && e < |s.g.info|
    ensures var t := LinkIfaces(o, s, |o.bridges|).s;
      && e < |s.g.master.up| && e < |t.g.master.up| && e < |s.g.link.up| && e < |t.g.link.up|
      && (!Owned(o, t, e, false) ==> t.g.master.up[e] == s.g.master.up[e])
      && (!Owned(o, t, e, true) ==> t.g.link.up[e] == s.g.link.up[e])
      && e < |s.g.marks| && e < |t.g.marks| && t.g.marks[e].linkNet == s.g.marks[e].linkNet
      && (!Owned(o, t, e, true) ==> t.g.marks[e].weakLink == s.g.marks[e].weakLink)
      && e < |s.g.peer| && e < |t.g.peer|
      && (!PatchEnd(o, s.g, t, e) && (s.g.peer[e].Some? ==> !PatchEnd(o, s.g, t, s.g.peer[e].value)) ==>
            t.g.peer[e] == s.g.peer[e])
  {
    LinkIfacesSettles(o, s, |o.bridges|);
    hide LinkIfaces, WF, DistinctNames, Accounted, LinkFits, PortLinkFits, PatchEnd;
    assert Untouched(o, s.g, LinkIfaces(o, s, |o.bridges|).s, e);
    assert PeerKept(o, s.g, LinkIfaces(o, s, |o.bridges|).s, e);
  }

  /** The positions of pointers to entries numbered from `lo` up to `hi`. */
  function Pointing(links: seq<Option<nat>>, lo: nat, hi: nat): set<nat> {
    set i | 0 <= i < |links| && links[i].Some? && lo <= links[i].value < hi
  }

  lemma PointingOne(links: seq<Option<nat>>, lo: nat, k: nat, i: nat)
    requires lo <= k && i < |links| && links[i] == Some(k)
    requires forall j :: 0 <= j < |links| && j != i ==> links[j] != Some(k)
    ensures |Pointing(links, lo, k + 1)| == |Pointing(links, lo, k)| + 1
  {
    assert Pointing(links, lo, k + 1) == Pointing(links, lo, k) + {i};
  }

  lemma PointingNone(links: seq<Option<nat>>, lo: nat, k: nat)
    requires forall j :: 0 <= j < |links| ==> links[j] != Some(k)
    ensures Pointing(links, lo, k + 1) == Pointing(links, lo, k)
  {
  }

  /** No two interfaces or ports share an entry. */
  ghost predicate Apart(s: State) {
    && (forall i, j :: 0 <= i < j < |s.links| && s.links[i].Some? ==> s.links[i] != s.links[j])
    && (forall p, q :: 0 <= p < q < |s.portLinks| && s.portLinks[p].Some? ==> s.portLinks[p] != s.portLinks[q])
    && (forall i, p :: 0 <= i < |s.links| && 0 <= p < |s.portLinks| && s.links[i].Some? ==>
      s.links[i] != s.portLinks[p])
  }

  lemma CountStep(s: State, lo: nat, k: nat)
    requires Apart(s) && Accounted(s, k) && lo <= k
    ensures |Pointing(s.links, lo, k + 1)| + |Pointing(s.portLinks, lo, k + 1)|
         == |Pointing(s.links, lo, k)| + |Pointing(s.portLinks, lo, k)| + 1
  {
    hide Pointing;
    if i: nat :| i < |s.links| && s.links[i] == Some(k) {
      PointingOne(s.links, lo, k, i);
      PointingNone(s.portLinks, lo, k);
    } else {
      var p: nat :| p < |s.portLinks| && s.portLinks[p] == Some(k);
      PointingOne(s.portLinks, lo, k, p);
      PointingNone(s.links, lo, k);
    }
  }

  lemma {:induction false} CountNew(s: State, lo: nat, hi: nat)
    requires Apart(s) && lo <= hi && forall e :: lo <= e < hi ==> Accounted(s, e)
    ensures |Pointing(s.links, lo, hi)| + |Pointing(s.portLinks, lo, hi)| == hi - lo
    decreases hi
  {
    hide Apart, Accounted;
    if hi == lo {
      assert Pointing(s.links, lo, hi) == {} && Pointing(s.portLinks, lo, hi) == {};
    } else {
      CountNew(s, lo, hi - 1);
      CountStep(s, lo, hi - 1);
    }
  }

  /** Interfaces linked to none of the first `n` entries, but to a later one. */
  function Unmatched(s: State, n: nat): set<nat> {
    set i | 0 <= i < |s.links| && s.links[i].Some? && s.links[i].value >= n
  }

  /** Ports with an entry of their own. */
  function Begun(s: State): set<nat> {
    set p | 0 <= p < |s.portLinks| && s.portLinks[p].Some?
  }

  /** The covered interfaces for which no entry of `g0` qualifies. */
  ghost function WithoutDevice(o: Config, g0: Graph, t: State, bs: set<nat>): set<nat>
    requires ConfigOk(o) && WF(g0) && |t.links| == |o.ifs|
  {
    set i | 0 <= i < |o.ifs| && Covered(o, bs, i) && Sane(g0, Device(o, t, i))
      && forall e: nat :: !Eligible(g0, Device(o, t, i), None, e)
  }

  /** The ports with several interfaces of the given bridges. */
  ghost function MultiPorts(o: Config, bs: set<nat>): set<nat> {
    set p | p in PortsOf(o, bs) && Multi(o, p)
  }

  /** The root namespace gains one entry per port that got one and one per interface linked to a new
      one, and nothing else; other namespaces gain none. The completed bridges account for all their
      ports with several interfaces and all their interfaces without a kernel device, and after
      success for everything. */
  lemma RootGrowth(o: Config, s: State)
    requires Initial(o, s) && DistinctNames(o)
    ensures var r := LinkIfaces(o, s, |o.bridges|); var t := r.s; var n := |s.g.info|;
      && WF(s.g) && |t.links| == |o.ifs|
      && |t.g.spaces| == |s.g.spaces|
      && |t.g.spaces[0].ifaces| == |s.g.spaces[0].ifaces| + |Unmatched(t, n)| + |Begun(t)|
      && (forall j :: 0 < j < |s.g.spaces| ==> t.g.spaces[j].ifaces == s.g.spaces[j].ifaces)
      && WithoutDevice(o, s.g, t, r.resolved) <= Unmatched(t, n) && MultiPorts(o, r.resolved) <= Begun(t)
      && (r.err == 0 ==>
            WithoutDevice(o, s.g, t, r.resolved) == Unmatched(t, n) && MultiPorts(o, r.resolved) == Begun(t))
  {
    hide LinkIfaces, DistinctNames, Settled, Kept, WithoutDevice, MultiPorts, Begun, Unmatched, WF, Inv, ConfigOk,
      StateOk;
    var r := LinkIfaces(o, s, |o.bridges|);
    LinkIfacesSettles(o, s, |o.bridges|);
    KeptSizes(o, s.g, r.s, r.resolved);
    GrowthOf(o, s.g, r.s);
    CoveredGrowth(o, s, r.s, r.resolved);
    if r.err == 0 {
      AllGrowth(o, s, r.s, r.resolved);
    }
  }

  lemma KeptSizes(o: Config, g0: Graph, s: State, bs: set<nat>)
    requires BridgesKept(o, g0, s, bs)
    ensures Inv(o, g0, s) && ConfigOk(o) && WF(g0) && StateOk(o, s) && |s.links| == |o.ifs| &&
      |s.portLinks| == |o.ports|
  {
  }

  lemma GrowthOf(o: Config, g0: Graph, t: State)
    requires Inv(o, g0, t) && DistinctNames(o)
    ensures Grown(g0, t.g)
    ensures |t.g.info| - |g0.info| == |Unmatched(t, |g0.info|)| + |Begun(t)|
  {
    DistinctEntries(o, g0, t);
    assert Apart(t);
    CountNew(t, |g0.info|, |t.g.info|);
    NewAreUnmatched(o, g0, t);
    NewAreBegun(o, g0, t);
  }

  lemma NewAreUnmatched(o: Config, g0: Graph, t: State)
    requires Inv(o, g0, t)
    ensures Pointing(t.links, |g0.info|, |t.g.info|) == Unmatched(t, |g0.info|)
  {
    hide Accounted, Untouched, PortLinkFits, WF;
    forall i | i in Unmatched(t, |g0.info|) ensures i in Pointing(t.links, |g0.info|, |t.g.info|) {
      assert LinkFits(o, g0, t, i);
    }
  }

  lemma NewAreBegun(o: Config, g0: Graph, t: State)
    requires Inv(o, g0, t)
    ensures Pointing(t.portLinks, |g0.info|, |t.g.info|) == Begun(t)
  {
    hide Accounted, Untouched, LinkFits, WF;
    forall p | p in Begun(t) ensures p in Pointing(t.portLinks, |g0.info|, |t.g.info|) {
      assert PortLinkFits(o, g0, t, p);
    }
  }

  /** A settled interface is linked to a new entry exactly if no old one qualifies. */
  lemma NewWithoutDevice(o: Config, g0: Graph, t: State, i: nat)
    requires ConfigOk(o) && WF(g0) && |t.links| == |o.ifs| && Matched(o, g0, t, i)
    ensures Sane(g0, Device(o, t, i))
    ensures t.links[i].value >= |g0.info| <==> forall e: nat :: !Eligible(g0, Device(o, t, i), None, e)
  {
    hide Result, Unsure, WF, Score;
    ResultMeaning(g0, Device(o, t, i), None);
  }

  lemma CoveredGrowth(o: Config, s: State, t: State, bs: set<nat>)
    requires BridgesKept(o, s.g, t, bs) && WF(s.g) && |t.links| == |o.ifs|
    ensures WithoutDevice(o, s.g, t, bs) <= Unmatched(t, |s.g.info|) && MultiPorts(o, bs) <= Begun(t)
  {
    hide Kept, Matched, Eligible, Sane, WF, Device;
    forall i | i in WithoutDevice(o, s.g, t, bs) ensures i in Unmatched(t, |s.g.info|) {
      CoveredFacts(o, s.g, t, bs, i);
      NewWithoutDevice(o, s.g, t, i);
    }
    forall p | p in MultiPorts(o, bs) ensures p in Begun(t) {
      MultiBegun(o, s.g, t, bs, p);
    }
  }

  lemma MultiBegun(o: Config, g0: Graph, t: State, bs: set<nat>, p: nat)
    requires BridgesKept(o, g0, t, bs) && p in MultiPorts(o, bs)
    ensures p in Begun(t)
  {
    hide Accounted, Untouched, LinkFits, PortLinkFits, WF, IfaceSettled, Matched, Members;
    assert PortSettled(o, t, p);
  }

  lemma AllGrowth(o: Config, s: State, t: State, bs: set<nat>)
    requires BridgesDone(o, s.g, t, bs) && WF(s.g) && |t.links| == |o.ifs|
    ensures Unmatched(t, |s.g.info|) <= WithoutDevice(o, s.g, t, bs) && Begun(t) <= MultiPorts(o, bs)
  {
    hide Kept, Matched, Eligible, Sane, WF, Device;
    SettledIsKept(o, s.g, t, bs);
    forall i | i in Unmatched(t, |s.g.info|) ensures i in WithoutDevice(o, s.g, t, bs) {
      NewIsListed(o, s.g, t, bs, i);
      CoveredFacts(o, s.g, t, bs, i);
      NewWithoutDevice(o, s.g, t, i);
    }
    forall p | p in Begun(t) ensures p in MultiPorts(o, bs) {
      BegunIsMulti(o, s.g, t, bs, p);
    }
  }

  lemma NewIsListed(o: Config, g0: Graph, t: State, bs: set<nat>, i: nat)
    requires BridgesDone(o, g0, t, bs) && i in Unmatched(t, |g0.info|)
    ensures Covered(o, bs, i)
  {
    hide WF, Accounted, Untouched, PortLinkFits, IfaceSettled, PortSettled, Matched;
    assert LinkFits(o, g0, t, i);
    assert i in Members(o, PortsOf(o, bs));
  }

  lemma BegunIsMulti(o: Config, g0: Graph, t: State, bs: set<nat>, p: nat)
    requires BridgesDone(o, g0, t, bs) && p in Begun(t)
    ensures p in MultiPorts(o, bs)
  {
    hide WF, Accounted, Untouched, LinkFits, IfaceSettled, PortSettled, Matched, Members;
    assert PortLinkFits(o, g0, t, p);
  }

  /** Two patch ports that name each other are peers after a pass that completes the bridges of both,
      whichever comes first. */
  lemma PatchPortsMeet(o: Config, s: State, a: nat, b: nat)
    requires Initial(o, s) && DistinctNames(o) && PatchPair(o, s.g, a, b)
    requires Covered(o, LinkIfaces(o, s, |o.bridges|).resolved, a)
    requires Covered(o, LinkIfaces(o, s, |o.bridges|).resolved, b)
    ensures var t := LinkIfaces(o, s, |o.bridges|).s;
      && t.links[a].Some? && t.links[b].Some?
      && t.g.peer[t.links[a].value] == t.links[b] && t.g.peer[t.links[b].value] == t.links[a]
  {
    LinkIfacesSettles(o, s, |o.bridges|);
    EveryIfacePlaced(o, s, a);
    EveryIfacePlaced(o, s, b);
    assert Met(LinkIfaces(o, s, |o.bridges|).s, a, b);
  }

  /** Entry `f` is an internal interface of that name. */
  ghost predicate IsNamed(g: Graph, name: Option<string>, f: nat) {
    f < |g.info| && g.info[f].internal && name == Some(g.info[f].name)
  }

  /** A patch port's entry is paired with the internal interface its peer option names if there is one
      such interface; several give a warning and no pair, none gives nothing. */
  lemma PatchLink(g: Graph, e: nat, peer: Option<string>)
    requires WF(g) && e < |g.info|
    ensures var h := LinkPatch(g, e, peer);
      && |h.peer| == |g.peer| && |h.marks| == |g.marks|
      && ((forall f: nat :: !IsNamed(g, peer, f)) ==> h == g)
      && (forall f: nat :: IsNamed(g, peer, f) && (forall k: nat :: IsNamed(g, peer, k) ==> k == f) ==>
            h.marks == g.marks && forall x :: 0 <= x < |g.peer| ==>
              h.peer[x] == PeerAfter(g.peer, Some(e), Some(f), x))
      && (forall f: nat, k: nat :: IsNamed(g, peer, f) && IsNamed(g, peer, k) && f != k ==> h == Warn(g, e))
  {
    var q := ByPatch(peer);
    ResultMeaning(g, q, None);
    forall f: nat ensures Eligible(g, q, None, f) <==> IsNamed(g, peer, f) {
    }
    hide Result, Unsure, PeerAfter, Mirror, Placed, Warn, Eligible, IsNamed;
    if Result(g, q, None).Some? && !Unsure(g, q, None) {
      SetPeerEffect(g.peer, Some(e), Result(g, q, None));
    }
  }

  /** A tunnel's entry is linked to an interface exactly when that is the only interface of the
      entry's namespace that is up and holds the local address; a malformed address unlinks it,
      a missing one leaves it alone. Nobody else's link changes. */
  lemma TunnelLink(g: Graph, e: nat, ip: LocalIp, f: nat)
    requires WF(g) && e < |g.info|
    ensures var h := LinkTunnel(g, e, ip);
      && e < |h.link.up| == |g.link.up| && e < |h.marks| == |g.marks|
      && (ip.Local? ==>
            (h.link.up[e] == Some(f) <==>
              Holds(g, g.info[e].ns, ip.addr, f) && forall k: nat :: Holds(g, g.info[e].ns, ip.addr, k) ==> k == f))
      && (ip.BadLocal? ==> h.link.up[e] == None)
      && (ip.NoLocal? ==> h == g)
      && (!ip.NoLocal? ==> h.marks[e] == g.marks[e].(weakLink := true))
      && (forall x :: 0 <= x < |g.link.up| && x != e ==> h.link.up[x] == g.link.up[x])
      && h.master == g.master && h.peer == g.peer && h.info == g.info && h.spaces == g.spaces
  {
    hide Holder, Holds;
    Sizes(g);
    if ip.Local? {
      HolderId(g, g.info[e].ns, ip.addr);
      HolderMeaning(g, g.info[e].ns, ip.addr, f);
    }
    var target := if ip.Local? then Holder(g, g.info[e].ns, ip.addr) else None;
    SetUpKeepsMirror(g.link, target, e);
  }
}
