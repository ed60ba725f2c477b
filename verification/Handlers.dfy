/** The post callbacks of handlers/veth.c and of the kernel tunnels, and handler.c's loop driving them,
    on the pointer graph. */
module Handlers {
  import opened Common
  import opened Matcher
  import opened Model
  import opened Search
  import opened Topology
  import opened Master
  import opened PostPass
  import opened Tunnel
  import opened Veth

  lemma Flat(t: Topology, x: IfEntry)
    requires t.Valid() && t.Has(x)
    ensures WF(t.model) && x.id < |t.model.info| && x.info == t.model.info[x.id]
    ensures x.peer == null <==> t.model.peer[x.id].None?
  {
    t.View(x);
  }

  /** veth_post */
  method VethPost(t: Topology, entry: IfEntry) returns (err: int)
    requires t.Valid() && t.Has(entry)
    modifies t.Repr
    ensures t.Valid() && t.Repr == old(t.Repr) && t.table == old(t.table) && t.spaces == old(t.spaces)
    ensures WF(old(t.model)) && entry.id < |old(t.model).info| && Run(t.model, err) == Post(old(t.model), entry.id)
  {
    hide Topology.Valid, WF, Result, Unsure, Pair, Warn;
    Flat(t, entry);
    if entry.peer != null {
      return 0;
    }
    if entry.info.peerIndex == 0 {
      return ENOENT;
    }
    var found, ambiguous := FindIn(t, MatchPeer(entry), entry);
    if ambiguous {
      t.AddWarning(entry);
      return 0;
    }
    if found == null {
      t.AddWarning(entry);
      return 0;
    }
    t.PeerSet(entry, found);
    return 0;
  }

  /** vxlan_post, gre_post, vti_post and ipxipy_post */
  method TunnelPost(t: Topology, entry: IfEntry)
    requires t.Valid() && t.Has(entry)
    modifies t.Repr
    ensures t.Valid() && t.Repr == old(t.Repr) && t.table == old(t.table) && t.spaces == old(t.spaces)
    ensures WF(old(t.model)) && entry.id < |old(t.model).info|
    ensures IsKernelTunnel(old(t.model), entry.id) ==> t.model == PostPass.TunnelPost(old(t.model), entry.id)
    ensures !IsKernelTunnel(old(t.model), entry.id) ==> t.model == old(t.model)
  {
    hide Topology.Valid, WF, Holder, SetLink, SetMarks;
    Flat(t, entry);
    if entry.info.driver.None? || entry.info.driver.value !in TUNNEL_DRIVERS {
      return;
    }
    if entry.info.local.Some? {
      t.LinkNetView(entry);
      var ns := if entry.linkNet != null then entry.linkNet else entry.ns;
      var e := TunnelFindAddr(t, ns, entry.info.local.value);
      if e != null {
        t.LinkSet(e, entry);
        t.WeakLinkSet(entry);
      }
    }
  }

  /** The callbacks of the handlers that match the entry's driver. */
  method PostCallbacks(t: Topology, entry: IfEntry) returns (err: int)
    requires t.Valid() && t.Has(entry)
    modifies t.Repr
    ensures t.Valid() && t.Repr == old(t.Repr) && t.table == old(t.table) && t.spaces == old(t.spaces)
    ensures WF(old(t.model)) && entry.id < |old(t.model).info| && Run(t.model, err) == PostOne(old(t.model), entry.id)
  {
    hide Topology.Valid, WF, Holder, Post;
    Flat(t, entry);
    if entry.info.driver == Some("veth") {
      err := VethPost(t, entry);
    } else {
      TunnelPost(t, entry);
      err := 0;
    }
  }

  lemma PostSnoc(g: Graph, ids: seq<nat>, x: nat)
    requires WF(g) && AllBelow(ids, |g.info|) && x < |g.info|
    ensures AllBelow(ids + [x], |g.info|)
    ensures HandleAll(g, ids + [x]) == var r := HandleAll(g, ids); if r.err != 0 then r else PostOne(r.g, x)
    ensures SameLists(g, HandleAll(g, ids).g) && SameLists(g, HandleAll(g, ids + [x]).g)
  {
    hide WF, PostOne;
    assert (ids + [x])[..|ids|] == ids;
    LookupsKept(g, ids);
    LookupsKept(g, ids + [x]);
  }

  /** The walk ended at an error; the rest of the order would not have changed anything. */
  lemma Stopped(g: Graph, j: nat, k: nat)
    requires WF(g) && j < |g.spaces| && k <= |g.spaces[j].ifaces| && HandleAll(g, Seen(g, j, k)).err != 0
    ensures HandleAll(g, OrderTo(g, j + 1)) == HandleAll(g, Seen(g, j, k))
  {
    hide WF, HandleAll, OrderTo, Seen;
    SeenRest(g, j, k);
    StoppedForGood(g, Seen(g, j, k), g.spaces[j].ifaces[k..]);
  }

  lemma SeenRest(g: Graph, j: nat, k: nat)
    requires WF(g) && j < |g.spaces| && k <= |g.spaces[j].ifaces|
    ensures AllBelow(g.spaces[j].ifaces[k..], |g.info|)
    ensures OrderTo(g, j + 1) == Seen(g, j, k) + g.spaces[j].ifaces[k..]
  {
    SpaceBelow(g, j);
    hide WF;
    var ids := g.spaces[j].ifaces;
    assert ids == ids[..k] + ids[k..];
  }

  lemma {:induction false} StoppedAll(g: Graph, j: nat)
    requires WF(g) && j <= |g.spaces| && HandleAll(g, OrderTo(g, j)).err != 0
    ensures HandleAll(g, Order(g)) == HandleAll(g, OrderTo(g, j))
    decreases |g.spaces| - j
  {
    if j < |g.spaces| {
      SpaceBelow(g, j);
      StoppedForGood(g, OrderTo(g, j), g.spaces[j].ifaces);
      StoppedAll(g, j + 1);
    }
  }

  method PostNs(t: Topology, ns: NetnsEntry, ghost g: Graph) returns (err: int)
    requires t.Valid() && t.HasNs(ns) && WF(g) && ns.id < |g.spaces| && SameLists(g, t.model) && t.model.info == g.info
    requires HandleAll(g, OrderTo(g, ns.id)) == Run(t.model, 0)
    modifies t.Repr
    ensures t.Valid() && t.Repr == old(t.Repr) && t.table == old(t.table) && t.spaces == old(t.spaces)
    ensures SameLists(g, t.model) && t.model.info == g.info
    ensures HandleAll(g, OrderTo(g, ns.id + 1)) == Run(t.model, err)
  {
    hide Topology.Valid, WF, HandleAll, PostOne, OrderTo;
    ghost var j := ns.id;
    SeenSteps(g, j);
    t.Walk(ns, 0);
    var n := ns.ifaces.head.next;
    ghost var k := 0;
    while n.next != null
      invariant t.Valid() && t.Repr == old(t.Repr) && t.table == old(t.table) && t.spaces == old(t.spaces)
      invariant t.Stands(ns, k, n) && SameLists(g, t.model) && t.model.info == g.info
      invariant HandleAll(g, Seen(g, j, k)) == Run(t.model, 0)
      decreases |g.spaces[j].ifaces| - k
    {
      var entry := t.table[n.holder];
      n := n.next;
      PostSnoc(g, Seen(g, j, k), entry.id);
      Flat(t, entry);
      k := k + 1;
      err := PostCallbacks(t, entry);
      if err != 0 {
        Stopped(g, j, k);
        return;
      }
      t.Walk(ns, k);
    }
    err := 0;
  }

  lemma PostStart(t: Topology)
    requires t.Valid()
    ensures WF(t.model) && |t.model.spaces| == |t.spaces| && SameLists(t.model, t.model)
    ensures HandleAll(t.model, OrderTo(t.model, 0)) == Run(t.model, 0)
    ensures Order(t.model) == OrderTo(t.model, |t.model.spaces|)
  {
  }

  /** if_handler_post with the veth and tunnel handlers registered. */
  method IfHandlerPost(t: Topology) returns (err: int)
    requires t.Valid()
    modifies t.Repr
    ensures t.Valid() && t.Repr == old(t.Repr) && t.table == old(t.table) && t.spaces == old(t.spaces)
    ensures WF(old(t.model)) && Run(t.model, err) == HandleAll(old(t.model), Order(old(t.model)))
  {
    hide Topology.Valid, WF, HandleAll;
    ghost var g := t.model;
    PostStart(t);
    t.WalkNs(0);
    var n := t.netnsList.head.next;
    ghost var j := 0;
    while n.next != null
      invariant t.Valid() && t.Repr == old(t.Repr) && t.table == old(t.table) && t.spaces == old(t.spaces)
      invariant t.StandsNs(j, n) && SameLists(g, t.model) && t.model.info == g.info
      invariant HandleAll(g, OrderTo(g, j)) == Run(t.model, 0)
      decreases |g.spaces| - j
    {
      var ns := t.spaces[n.holder];
      n := n.next;
      err := PostNs(t, ns, g);
      j := j + 1;
      if err != 0 {
        StoppedAll(g, j);
        return;
      }
      t.WalkNs(j);
    }
    err := 0;
  }
}
