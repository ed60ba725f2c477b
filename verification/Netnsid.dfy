/** match_netnsid, match_if_netnsid and match_all_netnsid on the pointer graph. */
module Netnsid {
  import opened Model
  import opened NetnsLookup
  import opened Search
  import opened Topology
  import opened Master

  lemma IdsView(t: Topology, ns: NetnsEntry)
    requires t.Valid() && t.HasNs(ns)
    ensures WF(t.model) && ns.id < |t.model.spaces| == |t.spaces|
    ensures var ms := t.model.spaces[ns.id].ids;
      && |ns.ids| == |ms|
      && forall k :: 0 <= k < |ms| ==> ns.ids[k].id == ms[k].id && t.HasNs(ns.ids[k].ns) && ns.ids[k].ns.id == ms[k].ns
  {
    Numbers(t.table, t.spaces, t.model);
  }

  /** match_netnsid */
  method MatchNetnsid(t: Topology, id: int, current: NetnsEntry) returns (ns: NetnsEntry?)
    requires t.Valid() && t.HasNs(current)
    ensures WF(t.model) && current.id < |t.model.spaces|
    ensures ns != null ==> t.HasNs(ns)
    ensures NsRef(ns) == NsWithId(t.model.spaces[current.id].ids, id)
  {
    hide Topology.Valid, WF;
    IdsView(t, current);
    ghost var ms := t.model.spaces[current.id].ids;
    for k := 0 to |current.ids|
      invariant NsWithId(ms, id) == NsWithId(ms[k..], id)
    {
      if current.ids[k].id == id {
        return current.ids[k].ns;
      }
      assert ms[k..][1..] == ms[k + 1..];
    }
    return null;
  }

  /** match_if_netnsid */
  method MatchIfNetnsid(t: Topology, ifindex: nat, id: int, current: NetnsEntry) returns (e: IfEntry?)
    requires t.Valid() && t.HasNs(current)
    ensures WF(t.model) && current.id < |t.model.spaces|
    ensures e != null ==> t.Has(e)
    ensures Ref(e) == IfaceWithId(t.model, ifindex, id, current.id)
  {
    hide Topology.Valid, WF, NsWithId;
    var ns := MatchNetnsid(t, id, current);
    if ns == null {
      return null;
    }
    IfacesView(t, ns);
    ghost var ids := t.model.spaces[ns.id].ifaces;
    t.Walk(ns, 0);
    var n := ns.ifaces.head.next;
    ghost var k := 0;
    assert ids[0..] == ids;
    while n.next != null
      invariant t.Stands(ns, k, n)
      invariant WithIndex(t.model.info, ids, ifindex) == WithIndex(t.model.info, ids[k..], ifindex)
      decreases |ids| - k
    {
      var entry := t.table[n.holder];
      if entry.info.ifIndex == ifindex {
        return entry;
      }
      assert ids[k..][1..] == ids[k + 1..];
      n := n.next;
      k := k + 1;
      t.Walk(ns, k);
    }
    return null;
  }

  lemma IfacesView(t: Topology, ns: NetnsEntry)
    requires t.Valid() && t.HasNs(ns)
    ensures WF(t.model) && ns.id < |t.model.spaces| && |t.table| == |t.model.info|
    ensures AllBelow(t.model.spaces[ns.id].ifaces, |t.model.info|)
    ensures forall i {:trigger t.table[i]} :: 0 <= i < |t.table| ==>
      t.table[i].info == t.model.info[i] && t.table[i].id == i
  {
    SpaceBelow(t.model, ns.id);
    forall i | 0 <= i < |t.table| ensures t.table[i].info == t.model.info[i] && t.table[i].id == i {
      assert EntryShape(t.table, t.spaces, t.model.info, i);
    }
  }

  lemma EntryView(t: Topology, x: IfEntry)
    requires t.Valid() && t.Has(x)
    ensures WF(t.model) && x.id < |t.model.info| == |t.model.marks|
    ensures x.info == t.model.info[x.id] && t.HasNs(x.ns) && x.ns.id == x.info.ns
  {
    t.View(x);
  }

  /** The body of the loop, link half. */
  method LookLink(t: Topology, entry: IfEntry)
    requires t.Valid() && t.Has(entry)
    modifies t.Repr
    ensures t.Valid() && t.Repr == old(t.Repr) && t.table == old(t.table) && t.spaces == old(t.spaces)
    ensures WF(old(t.model)) && entry.id < |old(t.model).info| && t.model == LookupLink(old(t.model), entry.id)
  {
    hide Topology.Valid, WF, IfaceWithId, SetLink, NsWithId;
    EntryView(t, entry);
    if entry.info.linkNetnsid >= 0 {
      if entry.info.linkIndex != 0 {
        var link := MatchIfNetnsid(t, entry.info.linkIndex, entry.info.linkNetnsid, entry.ns);
        t.LinkSet(link, entry);
      } else {
        var ns := MatchNetnsid(t, entry.info.linkNetnsid, entry.ns);
        t.LinkNetSet(entry, ns);
      }
    }
  }

  /** The body of the loop, peer half. */
  method LookPeer(t: Topology, entry: IfEntry)
    requires t.Valid() && t.Has(entry)
    modifies t.Repr
    ensures t.Valid() && t.Repr == old(t.Repr) && t.table == old(t.table) && t.spaces == old(t.spaces)
    ensures WF(old(t.model)) && entry.id < |old(t.model).info| && t.model == LookupPeer(old(t.model), entry.id)
  {
    hide Topology.Valid, WF, IfaceWithId, Pair;
    EntryView(t, entry);
    if entry.info.peerNetnsid >= 0 {
      var peer := MatchIfNetnsid(t, entry.info.peerIndex, entry.info.peerNetnsid, entry.ns);
      t.PeerSet(entry, peer);
    }
  }

  lemma LookupSnoc(g: Graph, ids: seq<nat>, x: nat)
    requires WF(g) && AllBelow(ids, |g.info|) && x < |g.info|
    ensures AllBelow(ids + [x], |g.info|)
    ensures LookupAll(g, ids + [x]) == LookupPeer(LookupLink(LookupAll(g, ids), x), x)
  {
    assert (ids + [x])[..|ids|] == ids;
  }

  method LookNs(t: Topology, ns: NetnsEntry, ghost g: Graph)
    requires t.Valid() && t.HasNs(ns) && WF(g) && ns.id < |g.spaces|
    requires t.model == LookupAll(g, OrderTo(g, ns.id))
    modifies t.Repr
    ensures t.Valid() && t.Repr == old(t.Repr) && t.table == old(t.table) && t.spaces == old(t.spaces)
    ensures t.model == LookupAll(g, OrderTo(g, ns.id + 1))
  {
    hide Topology.Valid, WF, LookupAll, LookupLink, LookupPeer, OrderTo;
    ghost var j := ns.id;
    SeenSteps(g, j);
    t.Walk(ns, 0);
    var n := ns.ifaces.head.next;
    ghost var k := 0;
    while n.next != null
      invariant t.Valid() && t.Repr == old(t.Repr) && t.table == old(t.table) && t.spaces == old(t.spaces)
      invariant t.Stands(ns, k, n) && t.model.spaces == g.spaces
      invariant t.model == LookupAll(g, Seen(g, j, k))
      decreases |g.spaces[j].ifaces| - k
    {
      var entry := t.table[n.holder];
      n := n.next;
      LookupSnoc(g, Seen(g, j, k), entry.id);
      LookLink(t, entry);
      LookPeer(t, entry);
      k := k + 1;
      t.Walk(ns, k);
    }
  }

  lemma LookStart(t: Topology)
    requires t.Valid()
    ensures WF(t.model) && |t.model.spaces| == |t.spaces|
    ensures t.model == LookupAll(t.model, OrderTo(t.model, 0))
    ensures Order(t.model) == OrderTo(t.model, |t.model.spaces|)
  {
  }

  /** match_all_netnsid */
  method MatchAllNetnsid(t: Topology)
    requires t.Valid()
    modifies t.Repr
    ensures t.Valid() && t.Repr == old(t.Repr) && t.table == old(t.table) && t.spaces == old(t.spaces)
    ensures WF(old(t.model)) && t.model == LookupAll(old(t.model), Order(old(t.model)))
  {
    hide Topology.Valid, WF, LookupAll;
    ghost var g := t.model;
    LookStart(t);
    t.WalkNs(0);
    var n := t.netnsList.head.next;
    ghost var j := 0;
    while n.next != null
      invariant t.Valid() && t.Repr == old(t.Repr) && t.table == old(t.table) && t.spaces == old(t.spaces)
      invariant t.StandsNs(j, n)
      invariant t.model == LookupAll(g, OrderTo(g, j))
      decreases |g.spaces| - j
    {
      var ns := t.spaces[n.holder];
      n := n.next;
      LookNs(t, ns, g);
      j := j + 1;
      t.WalkNs(j);
    }
  }
}
