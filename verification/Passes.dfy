/** The last part of netns_fill_list: the passes over the complete graph, in their order, and what
    a whole successful run leaves. */
module Passes {
  import opened Common
  import opened Handlers
  import opened Loading
  import opened Master
  import opened Model
  import opened Netnsid
  import opened NetnsLookup
  import opened OpenVSwitch
  import opened Ovs
  import opened OvsDevices
  import opened OvsExact
  import opened OvsInvariant
  import opened OvsTheory
  import opened PostPass
  import opened Resolution
  import opened Search
  import opened Topology
  import opened Tunnel
  import opened Veth

  /** Nothing of the parsed database is linked yet. */
  ghost function Unlinked(o: Config, g: Graph): (s: Ovs.State)
    requires WF(g) && |g.spaces| > 0
    ensures StateOk(o, s) && s.g == g
  {
    Ovs.State(g, seq(|o.ifs|, i => None), seq(|o.ports|, p => None))
  }

  /** `s` is the state behind the Open vSwitch pass, `resolved` are the bridges it completed. Its own
      errors do not matter to the caller. */
  datatype Outcome = Outcome(g: Graph, err: int, s: Ovs.State, resolved: set<nat>)

  /** Identifiers first, then indexes. */
  ghost function Relate(g: Graph): (h: Graph)
    requires WF(g)
    ensures WF(h) && h.info == g.info && SameLists(g, h)
  {
    var h := LookupAll(g, Order(g));
    OrderMembers(h);
    ResolveMeaning(h, Order(h));
    Resolve(h, Order(h))
  }

  ghost function Fill(o: Config, g: Graph): Outcome
    requires WF(g) && |g.spaces| > 0 && ConfigOk(o)
  {
    var r := Ovs.LinkIfaces(o, Unlinked(o, Relate(g)), |o.bridges|);
    var v := HandleAll(r.s.g, Order(r.s.g));
    Outcome(v.g, v.err, r.s, r.resolved)
  }

  lemma Start(sw: Switch)
    requires sw.Valid() && sw.Initial()
    ensures WF(sw.t.model) && |sw.t.model.spaces| > 0 && ConfigOk(sw.config)
    ensures sw.Now() == Unlinked(sw.config, sw.t.model)
  {
    sw.NowOk();
    assert sw.links == seq(|sw.links|, i => None);
    assert sw.portLinks == seq(|sw.portLinks|, p => None);
  }

  /** The passes of netns_fill_list on the pointer graph. */
  method FillList(t: Topology, sw: Switch) returns (err: int, ghost f: Outcome)
    requires sw.t == t && sw.Valid() && sw.Initial()
    modifies t.Repr, sw.ifs`link, sw.ports`link, sw`links, sw`portLinks
    ensures t.Valid()
    ensures WF(old(t.model)) && |old(t.model).spaces| > 0 && ConfigOk(sw.config)
    ensures f == Fill(sw.config, old(t.model)) && err == f.err && t.model == f.g
  {
    hide Topology.Valid, WF, ConfigOk, Ovs.LinkIfaces, HandleAll, LookupAll, Resolve, StateOk, Switch.Wired;
    ghost var g := t.model;
    Start(sw);
    sw.NowOk();
    MatchAllNetnsid(t);
    sw.WiredStays();
    MasterResolve(t);
    sw.WiredStays();
    Start(sw);
    ghost var run;
    err, run := sw.GlobalPost();
    assert err == 0;
    err := IfHandlerPost(t);
    f := Outcome(t.model, err, run.s, run.resolved);
  }

  // ----- a whole run

  lemma FillParts(o: Config, g: Graph)
    requires WF(g) && |g.spaces| > 0 && ConfigOk(o)
    ensures var f := Fill(o, g); var s := Unlinked(o, Relate(g)); var r := Ovs.LinkIfaces(o, s, |o.bridges|);
      && Initial(o, s) && f.s == r.s && f.resolved == r.resolved && WF(r.s.g)
      && f.err == HandleAll(r.s.g, Order(r.s.g)).err && f.g == HandleAll(r.s.g, Order(r.s.g)).g
  {
    hide WF, ConfigOk;
  }

  lemma SameCarriers(g: Graph, h: Graph, index: nat, x: nat, local: bool, ids: seq<nat>)
    requires x < |g.info| && h.info == g.info && AllBelow(ids, |g.info|)
    ensures FirstCarrier(h, index, x, local, ids) == FirstCarrier(g, index, x, local, ids)
    decreases ids
  {
    if ids != [] {
      SameCarriers(g, h, index, x, local, ids[1..]);
    }
  }

  /** The entry an index leads to: the local carrier, else the first one elsewhere, else none. */
  ghost function Carrier(g: Graph, index: nat, x: nat): Option<nat>
    requires WF(g) && x < |g.info|
  {
    var near := FirstCarrier(g, index, x, true, Order(g));
    if near.Some? then near else FirstCarrier(g, index, x, false, Order(g))
  }

  /** The master the two searches by number give: the one already there, else the index's. */
  ghost function MasterTarget(g: Graph, x: nat): Option<nat>
    requires WF(g) && x < |g.info|
  {
    if MasterPending(g, x) then Carrier(g, g.info[x].masterIndex, x) else g.master.up[x]
  }

  /** The link they give: what namespace identifier and index name, or the one already there without
      an identifier; if that is none, what the index alone names. */
  ghost function LinkTarget(g: Graph, x: nat): Option<nat>
    requires WF(g) && x < |g.info|
  {
    var known := if HasLinkId(g, x) then LinkLookup(g, x) else g.link.up[x];
    if known.None? && g.info[x].linkIndex != 0 then Carrier(g, g.info[x].linkIndex, x) else known
  }

  lemma Related(g: Graph, x: nat)
    requires WF(g) && x < |g.info|
    ensures var h := Relate(g);
      && x < |h.master.up| && x < |h.link.up|
      && h.master.up[x] == MasterTarget(g, x) && h.link.up[x] == LinkTarget(g, x)
      && h.peer == LookupAll(g, Order(g)).peer
  {
    var h := LookupAll(g, Order(g));
    hide LookupAll, Resolve, WF, LinkLookup;
    OrderSame(g, h);
    OrderMembers(g);
    LinksMeaning(g, Order(g));
    assert LinksLooked(g, h, x, x in Order(g));
    MasterResolveMeaning(h, x);
    OrderMembers(h);
    ResolveMeaning(h, Order(h));
    SameCarriers(g, h, g.info[x].masterIndex, x, true, Order(g));
    SameCarriers(g, h, g.info[x].masterIndex, x, false, Order(g));
    SameCarriers(g, h, g.info[x].linkIndex, x, true, Order(g));
    SameCarriers(g, h, g.info[x].linkIndex, x, false, Order(g));
    Sizes(h);
    Sizes(Relate(g));
  }

  /** On entries as the scan leaves them nothing is set yet: their masters and links are what the numbers
      in their infos name, and no peer is known. */
  lemma FromScan(g: Graph, x: nat)
    requires WF(g) && Bare(g) && x < |g.info|
    ensures MasterTarget(g, x) == if g.info[x].masterIndex == 0 then None else Carrier(g, g.info[x].masterIndex, x)
    ensures LinkTarget(g, x) ==
      var named := if HasLinkId(g, x) then LinkLookup(g, x) else None;
      if named.None? && g.info[x].linkIndex != 0 then Carrier(g, g.info[x].linkIndex, x) else named
    ensures NoPeers(g)
    ensures Exit(g, x) ==
      if OnlyLinkNet(g, x) && LinkNetLookup(g, x).Some? then LinkNetLookup(g, x).value else g.info[x].ns
  {
    hide Carrier, LinkLookup, LinkNetLookup;
    Sizes(g);
  }

  /** The namespace a tunnel's packets leave through, once identifiers are resolved. */
  ghost function Exit(g: Graph, x: nat): (ns: nat)
    requires WF(g) && x < |g.info|
    ensures ns < |g.spaces|
  {
    var named := if OnlyLinkNet(g, x) then LinkNetLookup(g, x) else g.marks[x].linkNet;
    if named.Some? then named.value else g.info[x].ns
  }

  /** The interface a kernel tunnel is attached to, from what the scan found. */
  ghost function KernelEnd(g: Graph, x: nat): Option<nat>
    requires WF(g) && x < |g.info|
  {
    if IsKernelTunnel(g, x) && g.info[x].local.Some? then Holder(g, Exit(g, x), g.info[x].local.value) else None
  }

  /** In the final graph, whether or not the Open vSwitch pass or the handlers' pass ended early, every
      entry that was there before the passes has
      - the master its index names (or the one it had), unless an Open vSwitch interface is linked
        to it,
      - the link its namespace identifier and index name, else the one its index names, unless an Open
        vSwitch tunnel is linked to it or it is a kernel tunnel whose local address one interface alone
        holds, and
      - the peer found by identifier, unless one of the two is an end of a patch cable.
      Such a kernel tunnel is linked to that interface if the handlers' pass gets to it, as it does
      without an error. Pairs made before that pass are kept, and if it succeeds every veth device has a
      peer or a warning. */
  lemma WholeRun(o: Config, g: Graph, x: nat)
    requires WF(g) && |g.spaces| > 0 && ConfigOk(o) && DistinctNames(o) && x < |g.info|
    ensures var f := Fill(o, g); var h := f.g; var reported := LookupAll(g, Order(g)).peer; var end := KernelEnd(g, x);
      && x < |h.info| && h.info[x] == g.info[x]
      && x < |h.master.up| && x < |h.link.up| && x < |h.peer| && x < |f.s.g.peer| && x < |h.marks| && x < |f.s.g.marks|
      && (!Owned(o, f.s, x, false) ==> h.master.up[x] == MasterTarget(g, x))
      && (f.err == 0 && end.Some? ==> h.link.up[x] == end)
      && (!Owned(o, f.s, x, true) && end.None? ==> h.link.up[x] == LinkTarget(g, x))
      && (!Owned(o, f.s, x, true) ==> h.link.up[x] == LinkTarget(g, x) || h.link.up[x] == end)
      && x < |reported|
      && (reported[x].Some? && !PatchEnd(o, g, f.s, x) && !PatchEnd(o, g, f.s, reported[x].value) ==>
            h.peer[x] == reported[x])
      && (f.s.g.peer[x].Some? ==> h.peer[x] == f.s.g.peer[x])
      && (f.err == 0 && IsVeth(g, x) ==> h.peer[x].Some? || h.marks[x].warnings > f.s.g.marks[x].warnings)
  {
    hide Fill, Relate, Ovs.LinkIfaces, HandleAll, WF, Owned, StateOk, ConfigOk, DistinctNames, LinkTarget, MasterTarget,
      KernelEnd, TunnelEnd;
    var s := Unlinked(o, Relate(g));
    FillParts(o, g);
    Related(g, x);
    OthersKeepRelations(o, s, x);
    HandlersPart(o, s, x);
    SameEnds(o, g, Relate(g), Fill(o, g).s);
    EndAtStart(o, g, x);
  }

  /** New entries have no addresses, so a tunnel's end is the one found before the passes. */
  lemma EndAtStart(o: Config, g: Graph, x: nat)
    requires WF(g) && |g.spaces| > 0 && ConfigOk(o) && DistinctNames(o) && x < |g.info|
    ensures var t := Fill(o, g).s.g; WF(t) && x < |t.info| && TunnelEnd(t, x) == KernelEnd(g, x)
  {
    hide Fill, Relate, Ovs.LinkIfaces, WF, ConfigOk, DistinctNames, Holder, LinkNetLookup, OnlyLinkNet, Inv, Kept,
      Settled, Holds;
    var s := Unlinked(o, Relate(g));
    FillParts(o, g);
    OthersKeepRelations(o, s, x);
    RelatedExit(g, x);
    var r := Ovs.LinkIfaces(o, s, |o.bridges|);
    LinkIfacesSettles(o, s, |o.bridges|);
    KeptSizes(o, s.g, r.s, r.resolved);
    InvFacts(o, s.g, r.s);
    InfoKept(s.g, r.s.g, x);
    if g.info[x].local.Some? {
      HoldersAtStart(g, s.g, r.s.g, Exit(g, x), g.info[x].local.value);
      HolderSame(g, r.s.g, Exit(g, x), g.info[x].local.value);
    }
  }

  lemma HoldersAtStart(g: Graph, g0: Graph, t: Graph, ns: nat, a: Address)
    requires OvsInvariant.Grown(g0, t) && g0.info == g.info
    ensures forall e: nat :: Holds(t, ns, a, e) <==> Holds(g, ns, a, e)
  {
    forall e: nat ensures Holds(t, ns, a, e) <==> Holds(g, ns, a, e) {
      if e < |g0.info| {
        InfoKept(g0, t, e);
      }
    }
  }

  lemma RelatedExit(g: Graph, x: nat)
    requires WF(g) && x < |g.info|
    ensures var h := Relate(g); x < |h.marks| && Underlay(h, x) == Exit(g, x)
  {
    var h := LookupAll(g, Order(g));
    hide LookupAll, Resolve, WF, LinkNetLookup;
    OrderMembers(g);
    LinksMeaning(g, Order(g));
    assert LinksLooked(g, h, x, x in Order(g));
    OrderMembers(h);
    ResolveMeaning(h, Order(h));
    Sizes(h);
    Sizes(Relate(g));
  }

  lemma SameEnds(o: Config, g: Graph, h: Graph, s: Ovs.State)
    requires h.info == g.info
    ensures forall e: nat :: PatchEnd(o, g, s, e) == PatchEnd(o, h, s, e)
  {
  }

  /** Starting without peers and with consistent reports, every reported peer is in the final graph
      the one its identifier and index name, unless one of the two is an end of a patch cable. */
  lemma ReportedPeersStay(o: Config, g: Graph, x: nat)
    requires WF(g) && |g.spaces| > 0 && ConfigOk(o) && DistinctNames(o) && NoPeers(g) && Consistent(g)
    requires Reports(g, x) && PeerLookup(g, x).Some?
    ensures var f := Fill(o, g); var y := PeerLookup(g, x).value;
      !PatchEnd(o, g, f.s, x) && !PatchEnd(o, g, f.s, y) ==> x < |f.g.peer| && f.g.peer[x] == Some(y)
  {
    hide Fill, LookupAll, WF, ConfigOk, DistinctNames, Consistent, PeerLookup;
    WholeRun(o, g, x);
    OrderMembers(g);
    PeersExact(g, Order(g));
  }

  lemma HandlersPart(o: Config, s: Ovs.State, x: nat)
    requires OvsTheory.Initial(o, s) && DistinctNames(o) && x < |s.g.info|
    requires WF(Ovs.LinkIfaces(o, s, |o.bridges|).s.g)
    ensures var t := Ovs.LinkIfaces(o, s, |o.bridges|).s.g; var r := HandleAll(t, Order(t)); var h := r.g;
      && x < |t.info| && t.info[x] == s.g.info[x] && h.info == t.info && h.master == t.master
      && x < |t.peer| == |h.peer| && x < |t.marks| == |h.marks| && x < |t.link.up| == |h.link.up|
      && h.link.up[x] == (if Visited(t, Order(t), x) && TunnelEnd(t, x).Some? then TunnelEnd(t, x) else t.link.up[x])
      && (r.err == 0 ==> Visited(t, Order(t), x))
      && (t.peer[x].Some? ==> h.peer[x] == t.peer[x])
      && (r.err == 0 && IsVeth(s.g, x) ==> h.peer[x].Some? || h.marks[x].warnings > t.marks[x].warnings)
  {
    hide Ovs.LinkIfaces, WF, DistinctNames, HandleAll, PostAll, Visited, TunnelEnd;
    var t := Ovs.LinkIfaces(o, s, |o.bridges|).s.g;
    LinkIfacesSettles(o, s, |o.bridges|);
    KeptSizes(o, s.g, Ovs.LinkIfaces(o, s, |o.bridges|).s, Ovs.LinkIfaces(o, s, |o.bridges|).resolved);
    InfoKept(s.g, t, x);
    Sizes(t);
    Sizes(HandleAll(t, Order(t)).g);
    OrderMembers(t);
    VethPartAlone(t, Order(t));
    PassOnlyPairs(t, Order(t));
    TunnelsLinked(t, Order(t), x);
    if PostAll(t, Order(t)).err == 0 {
      AllVisited(t, Order(t), x);
      if IsVeth(s.g, x) {
        PairedOrWarned(t, Order(t), x);
      }
    }
  }

  /** Interface `i` belongs to a bridge that the Open vSwitch pass completes, judged by the configuration
      and the graph before that pass. */
  ghost predicate Treated(o: Config, g: Graph, i: nat)
    requires WF(g)
  {
    ConfigOk(o) && Listed(o, i) && Reached(o, Relate(g), OvsDevices.BridgeOf(o, i))
  }

  /** The entry interface `i` hangs under: the device of its bridge's main interface, or the new entry of
      its port. */
  ghost predicate HangsRight(o: Config, g: Graph, f: Outcome, i: nat, e: nat)
    requires WF(g) && Treated(o, g, i)
  {
    && e < |f.g.master.up| && o.ifs[i].port < |f.s.portLinks|
    && f.g.master.up[e] ==
         if |o.ports[o.ifs[i].port].ifaces| == 1
         then Result(Relate(g), MainDevice(o, OvsDevices.BridgeOf(o, i)), None) else f.s.portLinks[o.ifs[i].port]
  }

  /** The later pass over the handlers leaves the Open vSwitch interfaces where they were put: in the
      final graph each one of a completed bridge is its device, or new, and hangs where it belongs. */
  lemma PlacedInTheEnd(o: Config, g: Graph, i: nat)
    requires WF(g) && |g.spaces| > 0 && ConfigOk(o) && DistinctNames(o) && Treated(o, g, i)
    ensures var f := Fill(o, g); var device := DeviceAtStart(o, Relate(g), i);
      && i < |f.s.links| && f.s.links[i].Some?
      && (if device.Some? then f.s.links[i] == device else f.s.links[i].value >= |g.info|)
      && HangsRight(o, g, f, i, f.s.links[i].value)
  {
    hide Fill, Relate, Ovs.LinkIfaces, HandleAll, PostAll, WF, DistinctNames, LinkFits, PortLinkFits, Accounted,
      Untouched, Result, Unsure, Reached, MainOf, DeviceAtStart;
    var s := Unlinked(o, Relate(g));
    FillParts(o, g);
    var t := Ovs.LinkIfaces(o, s, |o.bridges|).s;
    PlacedFromStart(o, s, i);
    SomeIface(o, i);
    VethPartAlone(t.g, Order(t.g));
    PassOnlyPairs(t.g, Order(t.g));
    Sizes(t.g);
  }

  /** Patch ports of such bridges that name each other are peers in the final graph. */
  lemma PatchPortsInTheEnd(o: Config, g: Graph, i: nat, j: nat)
    requires WF(g) && |g.spaces| > 0 && ConfigOk(o) && DistinctNames(o) && Treated(o, g, i) && Treated(o, g, j)
    requires PatchPair(o, Relate(g), i, j)
    ensures var f := Fill(o, g);
      && i < |f.s.links| && j < |f.s.links| && f.s.links[i].Some? && f.s.links[j].Some?
      && f.s.links[i].value < |f.g.peer| && f.g.peer[f.s.links[i].value] == f.s.links[j]
  {
    hide Fill, Relate, Ovs.LinkIfaces, HandleAll, PostAll, WF, DistinctNames, PatchPair, Reached;
    var s := Unlinked(o, Relate(g));
    FillParts(o, g);
    var t := Ovs.LinkIfaces(o, s, |o.bridges|).s;
    PatchPortsMeetFromStart(o, s, i, j);
    VethPartAlone(t.g, Order(t.g));
    PassOnlyPairs(t.g, Order(t.g));
    Sizes(t.g);
  }

  /** Links and weak marks of the interfaces of such bridges in the final graph: what their tunnel options
      ask for, judged before the Open vSwitch pass, unless the entry is the device of a kernel tunnel whose
      local address one interface alone holds. Then it is linked to that one if the handlers' pass gets
      there, as it does without an error. */
  lemma LinksInTheEnd(o: Config, g: Graph, i: nat)
    requires WF(g) && |g.spaces| > 0 && ConfigOk(o) && DistinctNames(o) && Treated(o, g, i)
    ensures var f := Fill(o, g);
      && i < |f.s.links| && f.s.links[i].Some? && f.s.links[i].value < |f.g.info|
      && LinkInTheEnd(o, g, f, i, f.s.links[i].value)
  {
    hide Fill, Relate, Ovs.LinkIfaces, HandleAll, PostAll, WF, DistinctNames, ConfigOk, Reached, LinkAsAsked, KernelEnd,
      Visited, TunnelEnd, Listed;
    var s := Unlinked(o, Relate(g));
    FillParts(o, g);
    var r := Ovs.LinkIfaces(o, s, |o.bridges|);
    var t := r.s.g;
    LinksFromStart(o, s, i);
    var e := r.s.links[i].value;
    LinkedEntry(o, s, i);
    OrderMembers(t);
    TunnelsLinked(t, Order(t), e);
    VethPartAlone(t, Order(t));
    if PostAll(t, Order(t)).err == 0 {
      AllVisited(t, Order(t), e);
    }
    if e < |g.info| {
      EndAtStart(o, g, e);
    } else {
      NoKernelEnd(o, s, i);
    }
    SameAsked(o, Relate(g), t, Fill(o, g).g, i, e);
  }

  ghost predicate LinkInTheEnd(o: Config, g: Graph, f: Outcome, i: nat, e: nat)
    requires WF(g)
  {
    var end := if e < |g.info| then KernelEnd(g, e) else None;
    && (end.None? ==> LinkAsAsked(o, Relate(g), f.g, i, e))
    && (end.Some? && f.err == 0 ==>
          e < |f.g.link.up| && e < |f.g.marks| && f.g.link.up[e] == end && f.g.marks[e].weakLink)
    && (end.Some? && f.err != 0 ==>
          LinkAsAsked(o, Relate(g), f.g, i, e) || (e < |f.g.link.up| && f.g.link.up[e] == end))
  }

  lemma SameAsked(o: Config, g: Graph, t: Graph, h: Graph, i: nat, e: nat)
    requires LinkAsAsked(o, g, t, i, e) && e < |h.link.up| && e < |h.marks|
    ensures h.link.up[e] == t.link.up[e] && h.marks[e].weakLink == t.marks[e].weakLink ==> LinkAsAsked(o, g, h, i, e)
  {
    hide HoldsAlone;
  }

  lemma LinkedEntry(o: Config, s: Ovs.State, i: nat)
    requires OvsTheory.Initial(o, s) && i < |Ovs.LinkIfaces(o, s, |o.bridges|).s.links|
    requires Ovs.LinkIfaces(o, s, |o.bridges|).s.links[i].Some?
    ensures var t := Ovs.LinkIfaces(o, s, |o.bridges|).s; WF(t.g) && t.links[i].value < |t.g.info|
  {
    hide WF, Ovs.LinkIfaces;
  }

  lemma NoKernelEnd(o: Config, s: Ovs.State, i: nat)
    requires OvsTheory.Initial(o, s) && DistinctNames(o) && Listed(o, i) && Reached(o, s.g, OvsDevices.BridgeOf(o, i))
    requires i < |Ovs.LinkIfaces(o, s, |o.bridges|).s.links|
    requires Ovs.LinkIfaces(o, s, |o.bridges|).s.links[i].Some?
    requires Ovs.LinkIfaces(o, s, |o.bridges|).s.links[i].value >= |s.g.info|
    ensures var t := Ovs.LinkIfaces(o, s, |o.bridges|).s;
      WF(t.g) && t.links[i].value < |t.g.info| && TunnelEnd(t.g, t.links[i].value) == None
  {
    hide WF, Ovs.LinkIfaces, DistinctNames, Reached, Listed;
    LinkedEntry(o, s, i);
    CoveredExactly(o, s, i);
    EveryIfacePlaced(o, s, i);
  }

  lemma SomeIface(o: Config, i: nat)
    requires Listed(o, i)
    ensures |o.ports[o.ifs[i].port].ifaces| >= 1
  {
  }
}
