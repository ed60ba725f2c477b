/** match.c on the pointer graph: the callbacks, the descriptor and the walk over the lists. */
module Matcher {
  import opened Common
  import opened IntrusiveList
  import opened Match
  import opened Model
  import opened Search
  import opened Topology

  /** What link_iface_search reads from the ovs_if it is given. */
  datatype OvsArg = OvsArg(name: string, internal: bool, netdev: bool, main: IfEntry?, vports: set<(nat, string)>)

  /** A callback together with its argument. */
  datatype Callback =
    | MatchMaster(slave: IfEntry)
    | MatchLink(slave: IfEntry)
    | MatchPeer(end: IfEntry)
    | MatchTunnel(addr: Address)
    | LinkPatchSearch(peer: Option<string>)
    | LinkIfaceSearch(arg: OvsArg)

  ghost function AsQuery(cb: Callback): Query {
    match cb
    case MatchMaster(s) => ByMaster(s.id)
    case MatchLink(s) => ByLink(s.id)
    case MatchPeer(s) => ByPeer(s.id)
    case MatchTunnel(a) => ByAddress(a)
    case LinkPatchSearch(p) => ByPatch(p)
    case LinkIfaceSearch(a) => ByOvs(OvsKey(a.name, a.internal, a.netdev, Ref(a.main), a.vports))
  }

  ghost predicate Known(t: Topology, cb: Callback)
    reads t
  {
    match cb
    case MatchMaster(s) => t.Has(s)
    case MatchLink(s) => t.Has(s)
    case MatchPeer(s) => t.Has(s)
    case MatchTunnel(_) => true
    case LinkPatchSearch(_) => true
    case LinkIfaceSearch(a) => a.main == null || t.Has(a.main)
  }

  lemma KnownIsSane(t: Topology, cb: Callback)
    requires t.Valid() && Known(t, cb)
    ensures WF(t.model) && Sane(t.model, AsQuery(cb))
  {
  }

  method MatchIndex(t: Topology, entry: IfEntry, slave: IfEntry, index: nat) returns (res: int)
    requires t.Valid() && t.Has(entry) && t.Has(slave)
    ensures entry.id < |t.model.info| && slave.id < |t.model.info|
    ensures res == IndexScore(t.model, index, slave.id, entry.id)
  {
    hide Topology.Valid;
    t.View(entry);
    t.View(slave);
    if entry.info.ifIndex != index {
      return 0;
    }
    if entry.ns == slave.ns {
      return 2;
    }
    return 1;
  }

  method MatchPeerScore(t: Topology, entry: IfEntry, end: IfEntry) returns (res: int)
    requires t.Valid() && t.Has(entry) && t.Has(end)
    ensures entry.id < |t.model.info| && end.id < |t.model.info| && WF(t.model)
    ensures res == PeerScore(t.model, end.id, entry.id)
  {
    hide Topology.Valid, WF;
    t.View(entry);
    t.View(end);
    if entry.info.ifIndex != end.info.peerIndex || entry.info.peerIndex != end.info.ifIndex
       || entry.info.driver != Some("veth") {
      return 0;
    }
    if entry.peer != null && entry.peer != end {
      return 0;
    }
    if entry.ns == end.ns {
      return 2;
    }
    return 1;
  }

  method LinkIfaceScore(t: Topology, entry: IfEntry, arg: OvsArg) returns (res: int)
    requires t.Valid() && t.Has(entry) && Known(t, LinkIfaceSearch(arg))
    modifies t.Repr
    ensures t.Valid() && t.Repr == old(t.Repr) && t.table == old(t.table) && t.spaces == old(t.spaces)
    ensures var q := AsQuery(LinkIfaceSearch(arg)); var g := old(t.model);
      WF(g) && Sane(g, q) && entry.id < |g.info| && res == Score(g, q, entry.id) && t.model == Touch(g, q, entry.id)
  {
    hide Topology.Valid, WF, SetMarks;
    t.View(entry);
    if arg.main != null {
      t.View(arg.main);
    }
    var searchForSystem := arg.main == null;
    if !searchForSystem && !arg.netdev && entry.master != null && entry.master.info.name != "ovs-system" {
      return 0;
    }
    if arg.name != entry.info.name {
      return 0;
    }
    if !arg.netdev {
      if arg.internal && entry.info.driver != Some("openvswitch") {
        return 0;
      }
      if !searchForSystem && entry.master == null && (arg.main.ns.id, entry.info.name) !in arg.vports {
        return 0;
      }
    } else {
      if arg.internal {
        if entry.info.driver != Some("tun") || entry.subDriver.Some? {
          return 0;
        }
        t.SubDriverSet(entry, "openvswitch");
      } else {
        return 0;
      }
    }
    res := 1;
    if !searchForSystem {
      if arg.main.ns == entry.ns {
        res := res + 1;
      }
    } else if entry.ns.name.None? {
      res := res + 1;
    }
  }

  /** The address loop of match_tunnel. */
  method HasAddress(addrs: seq<Address>, a: Address) returns (found: bool)
    ensures found <==> a in addrs
  {
    for k := 0 to |addrs|
      invariant a !in addrs[..k]
    {
      if addrs[k] == a {
        return true;
      }
    }
    return false;
  }

  /** Dispatch on the callback. */
  method Call(t: Topology, cb: Callback, entry: IfEntry) returns (res: int)
    requires t.Valid() && t.Has(entry) && Known(t, cb)
    modifies t.Repr
    ensures t.Valid() && t.Repr == old(t.Repr) && t.table == old(t.table) && t.spaces == old(t.spaces)
    ensures var q := AsQuery(cb); var g := old(t.model);
      WF(g) && Sane(g, q) && entry.id < |g.info| && res == Score(g, q, entry.id) && t.model == Touch(g, q, entry.id)
  {
    hide Topology.Valid, WF;
    KnownIsSane(t, cb);
    t.View(entry);
    match cb
    case MatchMaster(s) =>
      t.View(s);
      res := MatchIndex(t, entry, s, s.info.masterIndex);
    case MatchLink(s) =>
      t.View(s);
      res := MatchIndex(t, entry, s, s.info.linkIndex);
    case MatchPeer(s) =>
      res := MatchPeerScore(t, entry, s);
    case MatchTunnel(a) =>
      var holds := HasAddress(entry.info.addrs, a);
      res := if entry.info.up && holds then 1 else 0;
    case LinkPatchSearch(p) =>
      res := if p == Some(entry.info.name) && entry.info.internal then 1 else 0;
    case LinkIfaceSearch(a) =>
      res := LinkIfaceScore(t, entry, a);
  }

  /** match_desc. A null `netnsList` confines the search to `ns`. */
  class MatchDesc {
    var mode: Mode
    var exclude: IfEntry?
    var netnsList: List?
    var ns: NetnsEntry?
    var found: IfEntry?
    var best: int
    var count: nat

    /** match_init */
    constructor ()
      ensures mode == Heuristic && exclude == null && netnsList == null && ns == null
      ensures found == null && State() == INIT
    {
      mode, exclude, netnsList, ns := Heuristic, null, null, null;
      found, best, count := null, 0, 0;
    }

    ghost function State(): Desc
      reads this
    {
      Desc(Ref(found), best, count)
    }
  }

  /** The result of a search as match_found sees it. */
  method MatchFound(d: MatchDesc) returns (e: IfEntry?)
    ensures Ref(e) == Found(d.State())
    ensures e == null || e == d.found
  {
    e := if d.best > 0 then d.found else null;
  }

  method MatchAmbiguous(d: MatchDesc) returns (b: bool)
    ensures b == Ambiguous(d.State())
  {
    b := d.best > 0 && d.count > 1;
  }

  lemma NsFacts(t: Topology, ns: NetnsEntry)
    requires t.Valid() && t.HasNs(ns)
    ensures WF(t.model) && ns.id < |t.model.spaces| && |t.table| == |t.model.info|
    ensures AllBelow(t.model.spaces[ns.id].ifaces, |t.model.info|) && NoDup(t.model.spaces[ns.id].ifaces)
  {
    SpaceBelow(t.model, ns.id);
  }

  /** One round of the loop: call the callback and update the descriptor. */
  method Consider(t: Topology, d: MatchDesc, cb: Callback, entry: IfEntry) returns (stop: bool)
    requires t.Valid() && Known(t, cb) && d !in t.Repr && t.Has(entry)
    modifies t.Repr, d`found, d`best, d`count
    ensures t.Valid() && t.Repr == old(t.Repr) && t.table == old(t.table) && t.spaces == old(t.spaces)
    ensures (d.found == old(d.found) || d.found == entry) && Known(t, cb)
    ensures var g := old(t.model); var q := AsQuery(cb);
      && WF(g) && Sane(g, q) && entry.id < |g.info| && t.model == Touch(g, q, entry.id)
      && d.State() == StepDesc(old(d.State()), entry.id, Score(g, q, entry.id))
      && (stop <==> d.mode.First? && Score(g, q, entry.id) > old(d.best))
  {
    hide Topology.Valid, WF, Score, Touch;
    var res := Call(t, cb, entry);
    if res > d.best {
      d.found, d.best, d.count := entry, res, 1;
      return d.mode.First?;
    }
    if res == d.best {
      d.count := d.count + 1;
    }
    return false;
  }

  /** The descriptor belongs to this graph and confines the search to a namespace of it. */
  ghost predicate ReadyNs(t: Topology, d: MatchDesc, cb: Callback)
    reads t, d
  {
    && Known(t, cb) && d !in t.Repr
    && d.ns != null && t.HasNs(d.ns)
    && (d.exclude != null ==> t.Has(d.exclude))
    && (d.found != null ==> t.Has(d.found))
    && (Marking(AsQuery(cb)) ==> d.mode.Heuristic?)
  }

  ghost predicate RanNs(g: Graph, cb: Callback, d: MatchDesc, d0: Desc, h: Graph)
    reads d
  {
    d.ns != null && ScannedNs(g, AsQuery(cb), d.mode, Ref(d.exclude), d.ns.id, d0, d.State(), h)
  }

  /** match_if_ns */
  method MatchIfNs(t: Topology, d: MatchDesc, cb: Callback) returns (err: int)
    requires t.Valid() && ReadyNs(t, d, cb)
    modifies t.Repr, d`found, d`best, d`count
    ensures t.Valid() && t.Repr == old(t.Repr) && t.table == old(t.table) && t.spaces == old(t.spaces)
    ensures ReadyNs(t, d, cb) && err == 0
    ensures RanNs(old(t.model), cb, d, old(d.State()), t.model)
  {
    hide Topology.Valid, WF, Visit, ScanNs, Cands, Touch, Standing, NoDup, AllBelow, Score, Sane, StepDesc, Marking,
      Known;
    ghost var g, q, d0 := t.model, AsQuery(cb), d.State();
    var ns := d.ns;
    NsFacts(t, ns);
    KnownIsSane(t, cb);
    ghost var ids := g.spaces[ns.id].ifaces;
    StandingStart(g, q, d.mode, Ref(d.exclude), ids, d0);
    err := 0;
    t.Walk(ns, 0);
    var n := ns.ifaces.head.next;
    ghost var k := 0;
    while n.next != null
      invariant t.Valid() && t.Repr == old(t.Repr) && t.table == old(t.table) && t.spaces == old(t.spaces)
      invariant t.Stands(ns, k, n) && t.model.spaces == g.spaces
      invariant ReadyNs(t, d, cb) && d.ns == ns
      invariant Standing(g, q, d.mode, Ref(d.exclude), ids, d0, k, d.State(), t.model)
      decreases |ids| - k
    {
      var entry := t.table[n.holder];
      n := n.next;
      if entry == d.exclude {
        StandingSkip(g, q, d.mode, Ref(d.exclude), ids, d0, k, d.State(), t.model);
      } else {
        StandingStep(g, q, d.mode, Ref(d.exclude), ids, d0, k, d.State(), t.model);
        var stop := Consider(t, d, cb, entry);
        if stop {
          return;
        }
      }
      k := k + 1;
      t.Walk(ns, k);
    }
    StandingEnd(g, q, d.mode, Ref(d.exclude), ids, d0, d.State(), t.model);
  }

  /** The descriptor belongs to this graph. */
  ghost predicate Ready(t: Topology, d: MatchDesc, cb: Callback)
    reads t, d
  {
    && Known(t, cb) && d !in t.Repr
    && (d.netnsList == null ==> d.ns != null && t.HasNs(d.ns))
    && (d.netnsList != null ==> d.netnsList == t.netnsList)
    && (d.exclude != null ==> t.Has(d.exclude))
    && (d.found != null ==> t.Has(d.found))
    && (Marking(AsQuery(cb)) ==> d.mode.Heuristic?)
  }

  /** A search of namespace `ns`, or of all of them, took the descriptor from `d0` to `d` and
      the graph from `g` to `h`. */
  ghost predicate Ran(g: Graph, q: Query, mode: Mode, excl: Option<nat>, ns: Option<nat>, d0: Desc, d: Desc, h: Graph) {
    match ns
    case None => ScannedAll(g, q, mode, excl, d0, d, h)
    case Some(j) => ScannedNs(g, q, mode, excl, j, d0, d, h)
  }

  /** match_if */
  method MatchIf(t: Topology, d: MatchDesc, cb: Callback) returns (err: int)
    requires t.Valid() && Ready(t, d, cb)
    modifies t.Repr, d`ns, d`found, d`best, d`count
    ensures t.Valid() && t.Repr == old(t.Repr) && t.table == old(t.table) && t.spaces == old(t.spaces)
    ensures d.found != null ==> t.Has(d.found)
    ensures err == 0
    ensures Ran(old(t.model), AsQuery(cb), d.mode, Ref(d.exclude),
                if d.netnsList != null then None else NsRef(old(d.ns)),
                old(d.State()), d.State(), t.model)
  {
    hide Topology.Valid, WF, Visit, ScanNs, Scan, CandLists, OrderTo, Touch, StandingAll, ScannedNs, ScannedAll,
      NoDup, AllBelow, Score, Sane, Known, Marking;
    err := 0;
    if d.netnsList != null {
      ghost var g, q, d0 := t.model, AsQuery(cb), d.State();
      AllStart(t, cb, d);
      t.WalkNs(0);
      var n := t.netnsList.head.next;
      ghost var j := 0;
      while n.next != null
        invariant t.Valid() && t.Repr == old(t.Repr) && t.table == old(t.table) && t.spaces == old(t.spaces)
        invariant t.StandsNs(j, n)
        invariant (d.found != null ==> t.Has(d.found)) && Known(t, cb)
        invariant WF(g) && Sane(g, q) && StandingAll(g, q, d.mode, Ref(d.exclude), d0, j, d.State(), t.model)
        decreases |t.spaces| - j
      {
        d.ns := t.spaces[n.holder];
        n := n.next;
        ghost var s, h := d.State(), t.model;
        err := MatchIfNs(t, d, cb);
        if err != 0 {
          return;
        }
        AllStep(t, g, q, d.mode, Ref(d.exclude), d0, j, s, h, d.State());
        j := j + 1;
        t.WalkNs(j);
      }
      d.ns := null;
      AllEnd(t, g, q, d.mode, Ref(d.exclude), d0, d.State());
    } else {
      err := MatchIfNs(t, d, cb);
    }
  }

  lemma AllStart(t: Topology, cb: Callback, d: MatchDesc)
    requires t.Valid() && Known(t, cb)
    ensures WF(t.model) && Sane(t.model, AsQuery(cb))
    ensures StandingAll(t.model, AsQuery(cb), d.mode, Ref(d.exclude), d.State(), 0, d.State(), t.model)
  {
  }

  lemma AllStep(t: Topology, g: Graph, q: Query, mode: Mode, excl: Option<nat>, d0: Desc, j: nat, d: Desc, h: Graph,
                d': Desc)
    requires t.Valid() && WF(g) && Sane(g, q) && StandingAll(g, q, mode, excl, d0, j, d, h) && j < |t.spaces|
    requires ScannedNs(h, q, mode, excl, j, d, d', t.model)
    ensures StandingAll(g, q, mode, excl, d0, j + 1, d', t.model)
  {
    StandingAllStep(g, q, mode, excl, d0, j, d, h, d', t.model);
  }

  lemma AllEnd(t: Topology, g: Graph, q: Query, mode: Mode, excl: Option<nat>, d0: Desc, d: Desc)
    requires t.Valid() && WF(g) && Sane(g, q) && StandingAll(g, q, mode, excl, d0, |t.spaces|, d, t.model)
    ensures ScannedAll(g, q, mode, excl, d0, d, t.model)
  {
    StandingAllEnd(g, q, mode, excl, d0, d, t.model);
  }
}
