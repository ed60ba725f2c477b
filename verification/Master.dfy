/** master.c's process and master_resolve on the pointer graph. */
module Master {
  import opened Match
  import opened Matcher
  import opened Model
  import opened Resolution
  import opened Search
  import opened Topology

  /** match_init, match_if over all namespaces, match_found and match_ambiguous, as every
      caller of a heuristic search uses them. */
  method Find(t: Topology, cb: Callback, exclude: IfEntry?) returns (found: IfEntry?, ambiguous: bool)
    requires t.Valid() && Known(t, cb) && (exclude != null ==> t.Has(exclude))
    modifies t.Repr
    ensures t.Valid() && t.Repr == old(t.Repr) && t.table == old(t.table) && t.spaces == old(t.spaces)
    ensures found != null ==> t.Has(found)
    ensures var g := old(t.model); var q := AsQuery(cb); var x := Ref(exclude);
      && WF(g) && Sane(g, q) && t.model == Visit(g, q, x, Order(g))
      && Ref(found) == Result(g, q, x) && ambiguous == Unsure(g, q, x)
  {
    hide Topology.Valid, WF, Visit, Scan, CandLists;
    var d := new MatchDesc();
    d.netnsList := t.netnsList;
    d.exclude := exclude;
    KnownIsSane(t, cb);
    var err := MatchIf(t, d, cb);
    found := MatchFound(d);
    ambiguous := MatchAmbiguous(d);
  }

  /** The same with a callback that writes nothing. */
  method FindIn(t: Topology, cb: Callback, exclude: IfEntry?) returns (found: IfEntry?, ambiguous: bool)
    requires t.Valid() && Known(t, cb) && (exclude != null ==> t.Has(exclude)) && !Marking(AsQuery(cb))
    modifies t.Repr
    ensures t.Valid() && t.Repr == old(t.Repr) && t.table == old(t.table) && t.spaces == old(t.spaces)
    ensures t.model == old(t.model)
    ensures found != null ==> t.Has(found)
    ensures WF(t.model) && Sane(t.model, AsQuery(cb))
    ensures Ref(found) == Result(t.model, AsQuery(cb), Ref(exclude))
    ensures ambiguous == Unsure(t.model, AsQuery(cb), Ref(exclude))
  {
    hide Topology.Valid, WF, Visit, Result, Unsure;
    KnownIsSane(t, cb);
    ghost var g := t.model;
    found, ambiguous := Find(t, cb, exclude);
    VisitPlain(g, AsQuery(cb), Ref(exclude), Order(g));
  }

  lemma Flat(t: Topology, x: IfEntry)
    requires t.Valid() && t.Has(x)
    ensures WF(t.model) && x.id < |t.model.info|
    ensures x.info == t.model.info[x.id]
    ensures (x.master == null <==> t.model.master.up[x.id].None?)
    ensures (x.link == null <==> t.model.link.up[x.id].None?)
  {
    t.View(x);
  }

  method ResolveMaster(t: Topology, entry: IfEntry)
    requires t.Valid() && t.Has(entry)
    modifies t.Repr
    ensures t.Valid() && t.Repr == old(t.Repr) && t.table == old(t.table) && t.spaces == old(t.spaces)
    ensures WF(old(t.model)) && entry.id < |old(t.model).info| && t.model == ProcessMaster(old(t.model), entry.id)
  {
    hide Topology.Valid, WF, Result, Unsure, SetMaster, Warn;
    Flat(t, entry);
    if entry.master == null && entry.info.masterIndex != 0 {
      var found, ambiguous := FindIn(t, MatchMaster(entry), entry);
      if ambiguous || found == null {
        t.AddWarning(entry);
      }
      t.MasterSet(found, entry);
    }
  }

  method ResolveLink(t: Topology, entry: IfEntry)
    requires t.Valid() && t.Has(entry)
    modifies t.Repr
    ensures t.Valid() && t.Repr == old(t.Repr) && t.table == old(t.table) && t.spaces == old(t.spaces)
    ensures WF(old(t.model)) && entry.id < |old(t.model).info| && t.model == ProcessLink(old(t.model), entry.id)
  {
    hide Topology.Valid, WF, Result, Unsure, SetLink, Warn;
    Flat(t, entry);
    if entry.link == null && entry.info.linkIndex != 0 {
      var found, ambiguous := FindIn(t, MatchLink(entry), entry);
      if ambiguous || found == null {
        t.AddWarning(entry);
      }
      t.LinkSet(found, entry);
    }
  }

  /** What a pass over all interfaces has done when it stands before interface `k` of namespace
      `j`: it has treated `OrderTo(g, j)` and `k` interfaces more. */
  ghost function Seen(g: Graph, j: nat, k: nat): (ids: seq<nat>)
    requires WF(g) && j < |g.spaces| && k <= |g.spaces[j].ifaces|
    ensures AllBelow(ids, |g.info|)
  {
    SpaceBelow(g, j);
    OrderTo(g, j) + g.spaces[j].ifaces[..k]
  }

  lemma SeenSteps(g: Graph, j: nat)
    requires WF(g) && j < |g.spaces|
    ensures Seen(g, j, 0) == OrderTo(g, j)
    ensures Seen(g, j, |g.spaces[j].ifaces|) == OrderTo(g, j + 1)
    ensures forall k :: 0 <= k < |g.spaces[j].ifaces| ==> Seen(g, j, k + 1) == Seen(g, j, k) + [g.spaces[j].ifaces[k]]
  {
    assert g.spaces[j].ifaces[..|g.spaces[j].ifaces|] == g.spaces[j].ifaces;
  }

  lemma ResolveSnoc(g: Graph, ids: seq<nat>, x: nat)
    requires WF(g) && AllBelow(ids, |g.info|) && x < |g.info|
    ensures AllBelow(ids + [x], |g.info|)
    ensures Resolve(g, ids + [x]) == ProcessLink(ProcessMaster(Resolve(g, ids), x), x)
    ensures SameLists(g, Resolve(g, ids)) ==> SameLists(g, Resolve(g, ids + [x]))
  {
    assert (ids + [x])[..|ids|] == ids;
    ProcessMasterEffect(Resolve(g, ids), x);
    ProcessLinkEffect(ProcessMaster(Resolve(g, ids), x), x);
  }

  /** process over the interfaces of one namespace. */
  method ResolveNs(t: Topology, ns: NetnsEntry, ghost g: Graph)
    requires t.Valid() && t.HasNs(ns) && WF(g) && ns.id < |g.spaces| && SameLists(g, t.model)
    requires t.model == Resolve(g, OrderTo(g, ns.id))
    modifies t.Repr
    ensures t.Valid() && t.Repr == old(t.Repr) && t.table == old(t.table) && t.spaces == old(t.spaces)
    ensures SameLists(g, t.model) && t.model == Resolve(g, OrderTo(g, ns.id + 1))
  {
    hide Topology.Valid, WF, Resolve, ProcessMaster, ProcessLink, OrderTo;
    ghost var j := ns.id;
    SeenSteps(g, j);
    t.Walk(ns, 0);
    var n := ns.ifaces.head.next;
    ghost var k := 0;
    while n.next != null
      invariant t.Valid() && t.Repr == old(t.Repr) && t.table == old(t.table) && t.spaces == old(t.spaces)
      invariant t.Stands(ns, k, n) && SameLists(g, t.model)
      invariant t.model == Resolve(g, Seen(g, j, k))
      decreases |g.spaces[j].ifaces| - k
    {
      var entry := t.table[n.holder];
      n := n.next;
      ResolveSnoc(g, Seen(g, j, k), entry.id);
      ResolveMaster(t, entry);
      ResolveLink(t, entry);
      k := k + 1;
      t.Walk(ns, k);
    }
  }

  lemma PassStart(t: Topology)
    requires t.Valid()
    ensures WF(t.model) && |t.model.spaces| == |t.spaces| && SameLists(t.model, t.model)
    ensures t.model == Resolve(t.model, OrderTo(t.model, 0))
    ensures Order(t.model) == OrderTo(t.model, |t.model.spaces|)
  {
  }

  /** master_resolve */
  method MasterResolve(t: Topology)
    requires t.Valid()
    modifies t.Repr
    ensures t.Valid() && t.Repr == old(t.Repr) && t.table == old(t.table) && t.spaces == old(t.spaces)
    ensures WF(old(t.model)) && t.model == Resolve(old(t.model), Order(old(t.model)))
  {
    hide Topology.Valid, WF, Resolve;
    ghost var g := t.model;
    PassStart(t);
    t.WalkNs(0);
    var n := t.netnsList.head.next;
    ghost var j := 0;
    while n.next != null
      invariant t.Valid() && t.Repr == old(t.Repr) && t.table == old(t.table) && t.spaces == old(t.spaces)
      invariant t.StandsNs(j, n) && SameLists(g, t.model)
      invariant t.model == Resolve(g, OrderTo(g, j))
      decreases |g.spaces| - j
    {
      var ns := t.spaces[n.holder];
      n := n.next;
      ResolveNs(t, ns, g);
      j := j + 1;
      t.WalkNs(j);
    }
  }
}
