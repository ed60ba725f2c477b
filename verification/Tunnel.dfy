/** tunnel.c: which interface of a namespace holds a tunnel's local address. */
module Tunnel {
  import opened Common
  import opened Match
  import opened Matcher
  import opened Model
  import opened Search
  import opened Topology

  /** tunnel_find_addr on the graph. */
  ghost function Holder(g: Graph, ns: nat, addr: Address): Option<nat>
    requires WF(g) && ns < |g.spaces|
  {
    match SearchNs(g, Heuristic, ByAddress(addr), None, ns)
    case Failed(_) => None
    case Done(d) => if Ambiguous(d) then None else Found(d)
  }

  /** Interface `e` of the namespace is up and has the address. */
  ghost predicate Holds(g: Graph, ns: nat, addr: Address, e: nat) {
    e < |g.info| && g.info[e].ns == ns && g.info[e].up && addr in g.info[e].addrs
  }

  /** It is the only one. */
  ghost predicate HoldsAlone(g: Graph, ns: nat, addr: Address, e: nat) {
    Holds(g, ns, addr, e) && forall f: nat :: Holds(g, ns, addr, f) ==> f == e
  }

  lemma HolderCands(g: Graph, ns: nat, addr: Address) returns (c: seq<Cand>)
    requires WF(g) && ns < |g.spaces|
    ensures SearchNs(g, Heuristic, ByAddress(addr), None, ns) == ScanNs(Heuristic, c, INIT)
    ensures YesNo(c) && Distinct(c)
    ensures forall f: nat :: Holds(g, ns, addr, f) <==> Cand(f, 1) in c
  {
    var q := ByAddress(addr);
    var ids := g.spaces[ns].ifaces;
    SpaceBelow(g, ns);
    c := Cands(g, q, None, ids);
    CandsMembers(g, q, None, ids);
    CandsDistinct(g, q, None, ids);
    forall f: nat ensures Holds(g, ns, addr, f) <==> Cand(f, 1) in c {
      if Holds(g, ns, addr, f) {
        assert f in ids;
      }
      if Cand(f, 1) in c {
        var k :| 0 <= k < |c| && c[k] == Cand(f, 1);
        assert c[k].id in ids;
      }
    }
  }

  ghost predicate Distinct(c: seq<Cand>) {
    forall i, j :: 0 <= i < j < |c| ==> c[i].id != c[j].id
  }

  /** A yes/no search without ambiguity finds `e` exactly when `e` alone says yes. */
  lemma OnlyYes(c: seq<Cand>, e: nat)
    requires YesNo(c) && Distinct(c)
    ensures ScanNs(Heuristic, c, INIT).Done?
    ensures var d := ScanNs(Heuristic, c, INIT).desc;
      !Ambiguous(d) && Found(d) == Some(e) <==> Cand(e, 1) in c && forall f: nat :: Cand(f, 1) in c ==> f == e
  {
    hide ScanNs, IsFirstBest;
    assert Flatten([c]) == c + Flatten([]) == c;
    assert Scan(Heuristic, [c], INIT) == ScanNs(Heuristic, c, INIT);
    HeuristicMeaning([c]);
    var d := ScanNs(Heuristic, c, INIT).desc;
    if exists k :: 0 <= k < |c| && c[k].score > 0 {
      var k := FirstBestExists(c);
      BestIsYes(c, k);
      assert Cand(c[k].id, 1) in c;
      if j :| 0 <= j < |c| && j != k && c[j].score == c[k].score {
        assert Cand(c[j].id, 1) in c;
      }
    }
  }

  lemma BestIsYes(c: seq<Cand>, k: nat)
    requires YesNo(c) && IsFirstBest(c, k)
    ensures k < |c| && c[k].score == 1
  {
  }

  /** An interface is returned exactly when it is the only one of its namespace that is up and
      holds the address. */
  lemma HolderMeaning(g: Graph, ns: nat, addr: Address, e: nat)
    requires WF(g) && ns < |g.spaces|
    ensures Holder(g, ns, addr) == Some(e) <==> HoldsAlone(g, ns, addr, e)
  {
    hide WF, SearchNs, ScanNs, Holds;
    var c := HolderCands(g, ns, addr);
    OnlyYes(c, e);
  }

  /** Who holds an address is a matter of infos and lists. */
  lemma HolderSame(g: Graph, h: Graph, ns: nat, a: Address)
    requires WF(g) && WF(h) && ns < |g.spaces| && ns < |h.spaces|
    requires forall e: nat :: Holds(h, ns, a, e) <==> Holds(g, ns, a, e)
    ensures Holder(h, ns, a) == Holder(g, ns, a)
  {
    hide WF, Holder, Holds;
    if Holder(g, ns, a).Some? {
      HolderMeaning(g, ns, a, Holder(g, ns, a).value);
      HolderMeaning(h, ns, a, Holder(g, ns, a).value);
    }
    if Holder(h, ns, a).Some? {
      HolderMeaning(g, ns, a, Holder(h, ns, a).value);
      HolderMeaning(h, ns, a, Holder(h, ns, a).value);
    }
  }

  lemma Ready(t: Topology, ns: NetnsEntry)
    requires t.Valid() && t.HasNs(ns)
    ensures WF(t.model) && ns.id < |t.model.spaces|
  {
  }

  /** tunnel_find_addr */
  method TunnelFindAddr(t: Topology, ns: NetnsEntry, addr: Address) returns (e: IfEntry?)
    requires t.Valid() && t.HasNs(ns)
    modifies t.Repr
    ensures t.Valid() && t.Repr == old(t.Repr) && t.table == old(t.table) && t.spaces == old(t.spaces)
    ensures t.model == old(t.model) && (e != null ==> t.Has(e))
    ensures WF(t.model) && ns.id < |t.model.spaces| && Ref(e) == Holder(t.model, ns.id, addr)
  {
    hide Topology.Valid, WF, ScanNs, Cands, Visit;
    var d := new MatchDesc();
    d.ns := ns;
    Ready(t, ns);
    SpaceBelow(t.model, ns.id);
    ghost var g := t.model;
    var err := MatchIf(t, d, MatchTunnel(addr));
    VisitPlain(g, ByAddress(addr), None, g.spaces[ns.id].ifaces);
    var ambiguous := MatchAmbiguous(d);
    if ambiguous {
      return null;
    }
    e := MatchFound(d);
  }
}
