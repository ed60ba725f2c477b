/** The invariant of link_ifaces, and what single steps of it keep: every link leads to an entry of
    the right name, new entries are accounted for, treated interfaces stay in place, patch ports
    with entries are paired. */
module OvsInvariant {
  import opened Common
  import opened Model
  import opened Ovs
  import opened Resolution
  import opened Search
  import opened Tunnel

  predicate Multi(o: Config, p: nat) {
    p < |o.ports| && |o.ports[p].ifaces| > 1
  }

  /** Interface names and names of ports with several interfaces are pairwise distinct. */
  ghost predicate DistinctNames(o: Config) {
    && (forall i, j :: 0 <= i < j < |o.ifs| ==> o.ifs[i].name != o.ifs[j].name)
    && (forall p, q :: 0 <= p < q < |o.ports| && Multi(o, p) && Multi(o, q) ==> o.ports[p].name != o.ports[q].name)
    && (forall i, p :: 0 <= i < |o.ifs| && 0 <= p < |o.ports| && Multi(o, p) ==> o.ifs[i].name != o.ports[p].name)
  }

  // ----- the invariant

  /** Interface `i` is on its port's list and that port on its bridge's, so it is not a main one. */
  predicate Listed(o: Config, i: nat) {
    && i < |o.ifs| && o.ifs[i].port < |o.ports| && o.ports[o.ifs[i].port].bridge < |o.bridges|
    && o.ifs[i].port in o.bridges[o.ports[o.ifs[i].port].bridge].ports
    && i in o.ports[o.ifs[i].port].ifaces
  }

  /** A link leads to an entry of the right name; a new one was made for this listed interface. */
  ghost predicate LinkFits(o: Config, g0: Graph, s: State, i: nat)
    requires i < |o.ifs| && |s.links| == |o.ifs|
  {
    match s.links[i]
    case None => true
    case Some(e) =>
      && e < |s.g.info| && s.g.info[e].name == o.ifs[i].name
      && (e >= |g0.info| ==>
            Listed(o, i) && s.g.info[e] == InternalInfo(o.ifs[i].name, o.bridges[o.ports[o.ifs[i].port].bridge].name))
  }

  ghost predicate PortLinkFits(o: Config, g0: Graph, s: State, p: nat)
    requires p < |o.ports| && |s.portLinks| == |o.ports|
  {
    match s.portLinks[p]
    case None => true
    case Some(e) =>
      && |g0.info| <= e < |s.g.info| && Multi(o, p) && o.ports[p].bridge < |o.bridges|
      && s.g.info[e] == InternalInfo(o.ports[p].name, o.bridges[o.ports[p].bridge].name)
  }

  /** A new entry exists because of an interface or a port. */
  ghost predicate Accounted(s: State, e: nat) {
    (exists i :: 0 <= i < |s.links| && s.links[i] == Some(e)) ||
      (exists p :: 0 <= p < |s.portLinks| && s.portLinks[p] == Some(e))
  }

  /** Some interface links to entry `e`; for `tunnel`, some tunnel interface does. */
  ghost predicate Owned(o: Config, s: State, e: nat, tunnel: bool) {
    exists i :: 0 <= i < |s.links| && s.links[i] == Some(e) && (tunnel ==> i < |o.ifs| && IsTunnel(o.ifs[i].typ))
  }

  /** Some interface of the name has a link. */
  ghost predicate Claimed(o: Config, s: State, name: string) {
    exists i :: 0 <= i < |s.links| && i < |o.ifs| && s.links[i].Some? && o.ifs[i].name == name
  }

  /** An old entry has its old master unless an interface links to it, its old link and weak mark unless
      a tunnel interface does, and its old sub-driver unless an interface of its name has a link. The
      namespace it points to stays. */
  ghost predicate Untouched(o: Config, g0: Graph, s: State, e: nat) {
    && e < |g0.master.up| && e < |s.g.master.up| && e < |g0.link.up| && e < |s.g.link.up|
    && (s.g.master.up[e] == g0.master.up[e] || Owned(o, s, e, false))
    && (s.g.link.up[e] == g0.link.up[e] || Owned(o, s, e, true))
    && e < |g0.marks| && e < |s.g.marks| && e < |g0.info|
    && (s.g.marks[e].subDriver == g0.marks[e].subDriver || Claimed(o, s, g0.info[e].name))
    && s.g.marks[e].linkNet == g0.marks[e].linkNet
    && (s.g.marks[e].weakLink == g0.marks[e].weakLink || Owned(o, s, e, true))
  }

  /** The end of a patch cable: an interface without a kernel device, or one that a patch port is
      linked to. */
  ghost predicate PatchEnd(o: Config, g0: Graph, s: State, e: nat) {
    && e < |g0.info|
    && (g0.info[e].internal ||
        exists i :: 0 <= i < |s.links| && i < |o.ifs| && s.links[i] == Some(e) && o.ifs[i].typ == "patch")
  }

  /** An old entry has its old peer unless it or that peer is such an end. */
  ghost predicate PeerKept(o: Config, g0: Graph, s: State, e: nat) {
    && e < |g0.peer| && e < |s.g.peer|
    && (s.g.peer[e] == g0.peer[e] || PatchEnd(o, g0, s, e)
        || (g0.peer[e].Some? && PatchEnd(o, g0, s, g0.peer[e].value)))
  }

  ghost predicate Grown(g0: Graph, g: Graph) {
    && |g.info| >= |g0.info| && g.info[..|g0.info|] == g0.info
    && |g.spaces| == |g0.spaces| && |g0.spaces| > 0
    && |g.spaces[0].ifaces| == |g0.spaces[0].ifaces| + |g.info| - |g0.info|
    && (forall j :: 0 < j < |g0.spaces| ==> g.spaces[j].ifaces == g0.spaces[j].ifaces)
    && SameNames(g0, g)
    && (forall e :: |g0.info| <= e < |g.info| ==> g.info[e].addrs == [])
  }

  ghost predicate SameNames(g: Graph, h: Graph) {
    |h.spaces| == |g.spaces| && forall j :: 0 <= j < |g.spaces| ==> h.spaces[j].name == g.spaces[j].name
  }

  ghost predicate Inv(o: Config, g0: Graph, s: State) {
    && ConfigOk(o) && StateOk(o, s) && WF(g0) && Grown(g0, s.g)
    && (forall i :: 0 <= i < |o.ifs| ==> LinkFits(o, g0, s, i))
    && (forall p :: 0 <= p < |o.ports| ==> PortLinkFits(o, g0, s, p))
    && (forall e :: |g0.info| <= e < |s.g.info| ==> Accounted(s, e))
    && (forall e :: 0 <= e < |g0.info| ==> Untouched(o, g0, s, e))
    && (forall e :: 0 <= e < |g0.info| ==> PeerKept(o, g0, s, e))
  }

  lemma PeersCarried(o: Config, g0: Graph, s: State, t: State)
    requires forall e :: 0 <= e < |g0.info| ==> PeerKept(o, g0, s, e)
    requires s.g.peer <= t.g.peer && Stable(s, t)
    ensures forall e :: 0 <= e < |g0.info| ==> PeerKept(o, g0, t, e)
  {
    forall e | 0 <= e < |g0.info| ensures PeerKept(o, g0, t, e) {
      assert PeerKept(o, g0, s, e);
      if PatchEnd(o, g0, s, e) {
        EndStays(o, g0, s, t, e);
      }
      if g0.peer[e].Some? && PatchEnd(o, g0, s, g0.peer[e].value) {
        EndStays(o, g0, s, t, g0.peer[e].value);
      }
    }
  }

  lemma EndStays(o: Config, g0: Graph, s: State, t: State, e: nat)
    requires Stable(s, t) && PatchEnd(o, g0, s, e)
    ensures PatchEnd(o, g0, t, e)
  {
    if i :| 0 <= i < |s.links| && i < |o.ifs| && s.links[i] == Some(e) && o.ifs[i].typ == "patch" {
      assert t.links[i] == Some(e);
    }
  }

  /** Distinct interfaces and ports have distinct entries. */
  lemma DistinctEntries(o: Config, g0: Graph, s: State)
    requires DistinctNames(o) && Inv(o, g0, s)
    ensures forall i, j :: 0 <= i < j < |o.ifs| && s.links[i].Some? ==> s.links[i] != s.links[j]
    ensures forall p, q :: 0 <= p < q < |o.ports| && s.portLinks[p].Some? ==> s.portLinks[p] != s.portLinks[q]
    ensures forall i, p :: 0 <= i < |o.ifs| && 0 <= p < |o.ports| && s.links[i].Some? ==> s.links[i] != s.portLinks[p]
  {
    forall i, j | 0 <= i < j < |o.ifs| && s.links[i].Some? ensures s.links[i] != s.links[j] {
      assert LinkFits(o, g0, s, i) && LinkFits(o, g0, s, j);
    }
    forall p, q | 0 <= p < q < |o.ports| && s.portLinks[p].Some? ensures s.portLinks[p] != s.portLinks[q] {
      assert PortLinkFits(o, g0, s, p) && PortLinkFits(o, g0, s, q);
    }
    forall i, p | 0 <= i < |o.ifs| && 0 <= p < |o.ports| && s.links[i].Some? ensures s.links[i] != s.portLinks[p] {
      assert LinkFits(o, g0, s, i) && PortLinkFits(o, g0, s, p);
    }
  }

  // ----- what single steps do

  /** link_iface: nothing but one link, sub-drivers and root warnings change. */
  lemma LinkIfaceEffect(o: Config, s: State, i: nat, netdev: bool, main: Option<nat>, required: bool)
    requires StateOk(o, s) && i < |o.ifs| && Id(s.g, main)
    ensures var r := LinkIface(o, s, i, netdev, main, required); var t := r.s;
      && t.portLinks == s.portLinks && t.links == s.links[i := t.links[i]]
      && t.g.info == s.g.info && t.g.master == s.g.master && t.g.link == s.g.link && t.g.peer == s.g.peer
      && SameLists(s.g, t.g) && SameNames(s.g, t.g)
      && (s.links[i].Some? ==> t.links[i] == s.links[i] && r.err == 0)
      && (s.links[i].None? && t.links[i].Some? ==> t.g.info[t.links[i].value].name == o.ifs[i].name)
      && (r.err == 0 && required ==> t.links[i].Some?)
      && (r.err == 0 || r.err == ENOENT || r.err == ERANGE)
  {
    hide Result, Unsure;
    if s.links[i].None? {
      ResultMeaning(s.g, ByOvs(KeyOf(o, i, netdev, main)), None);
    }
  }

  /** Only entries answering to the interface's name are marked, and only if one becomes its link. */
  lemma LinkIfaceMarks(o: Config, s: State, i: nat, netdev: bool, main: Option<nat>, required: bool, x: nat)
    requires StateOk(o, s) && i < |o.ifs| && Id(s.g, main) && x < |s.g.info|
    ensures var t := LinkIface(o, s, i, netdev, main, required).s;
      && x < |t.g.marks| && x < |s.g.marks|
      && (t.g.marks[x].subDriver == s.g.marks[x].subDriver || (t.links[i].Some? && s.g.info[x].name == o.ifs[i].name))
      && t.g.marks[x].linkNet == s.g.marks[x].linkNet && t.g.marks[x].weakLink == s.g.marks[x].weakLink
  {
    Sizes(s.g);
    Sizes(LinkIface(o, s, i, netdev, main, required).s.g);
    hide Result, Unsure, Visit, WF;
    if s.links[i].None? {
      var q := ByOvs(KeyOf(o, i, netdev, main));
      ResultMeaning(s.g, q, None);
      OrderMembers(s.g);
      VisitMarks(s.g, q, None, Order(s.g), x);
      assert Score(s.g, q, x) > 0 ==> Eligible(s.g, q, None, x);
    }
  }

  /** The entry is linked from the interface or port it is named after. */
  ghost predicate NamedAfter(o: Config, s: State, e: nat)
    requires e < |s.g.info| && |s.links| == |o.ifs| && |s.portLinks| == |o.ports|
  {
    || (exists j :: 0 <= j < |o.ifs| && s.links[j] == Some(e) && s.g.info[e].name == o.ifs[j].name)
    || (exists p ::
          0 <= p < |o.ports| && s.portLinks[p] == Some(e) && Multi(o, p) && s.g.info[e].name == o.ports[p].name)
  }

  lemma NewAreNamed(o: Config, g0: Graph, s: State, e: nat)
    requires Inv(o, g0, s) && |g0.info| <= e < |s.g.info|
    ensures |s.links| == |o.ifs| && |s.portLinks| == |o.ports| && NamedAfter(o, s, e)
  {
    hide WF, ConfigOk;
    assert Accounted(s, e);
    if j :| 0 <= j < |s.links| && s.links[j] == Some(e) {
      assert LinkFits(o, g0, s, j);
    } else {
      var p :| 0 <= p < |s.portLinks| && s.portLinks[p] == Some(e);
      assert PortLinkFits(o, g0, s, p);
    }
  }

  /** A new entry never answers to the name of an interface without a link. */
  lemma NewNamesTaken(o: Config, g0: Graph, s: State, i: nat, e: nat)
    requires Inv(o, g0, s) && DistinctNames(o) && i < |o.ifs| && s.links[i].None?
    requires e < |s.g.info| && s.g.info[e].name == o.ifs[i].name
    ensures e < |g0.info|
  {
    hide Inv;
    if e >= |g0.info| {
      NewAreNamed(o, g0, s, e);
      assert false;
    }
  }

  /** Setting the link of one interface to an old entry of its name keeps the invariant. */
  lemma RelinkKeeps(o: Config, g0: Graph, s: State, t: State, i: nat)
    requires Inv(o, g0, s) && StateOk(o, t) && i < |o.ifs|
    requires t.portLinks == s.portLinks && t.links == s.links[i := t.links[i]]
    requires t.g.info == s.g.info && t.g.master == s.g.master && t.g.link == s.g.link && t.g.peer == s.g.peer
    requires SameLists(s.g, t.g) && SameNames(s.g, t.g)
    requires s.links[i].Some? ==> t.links[i] == s.links[i]
    requires s.links[i].None? && t.links[i].Some? ==>
      t.links[i].value < |g0.info| && t.links[i].value < |s.g.info| && s.g.info[t.links[i].value].name == o.ifs[i].name
    requires |s.g.marks| == |t.g.marks| == |s.g.info|
    requires forall x :: 0 <= x < |s.g.marks| ==>
      && (t.g.marks[x].subDriver == s.g.marks[x].subDriver || (t.links[i].Some? && s.g.info[x].name == o.ifs[i].name))
      && t.g.marks[x].linkNet == s.g.marks[x].linkNet && t.g.marks[x].weakLink == s.g.marks[x].weakLink
    ensures Inv(o, g0, t)
  {
    hide WF, ConfigOk;
    forall j | 0 <= j < |o.ifs| ensures LinkFits(o, g0, t, j) {
      assert LinkFits(o, g0, s, j);
    }
    forall p | 0 <= p < |o.ports| ensures PortLinkFits(o, g0, t, p) {
      assert PortLinkFits(o, g0, s, p);
    }
    forall j, e | 0 <= j < |s.links| && s.links[j] == Some(e) ensures t.links[j] == Some(e) {
    }
    forall e | |g0.info| <= e < |t.g.info| ensures Accounted(t, e) {
      assert Accounted(s, e);
    }
    forall e | 0 <= e < |g0.info| ensures Untouched(o, g0, t, e) {
      assert Untouched(o, g0, s, e);
      InfoKept(g0, s.g, e);
    }
    PeersCarried(o, g0, s, t);
  }

  lemma LinkIfaceKeeps(o: Config, g0: Graph, s: State, i: nat, netdev: bool, main: Option<nat>, required: bool)
    requires Inv(o, g0, s) && i < |o.ifs| && Id(s.g, main)
    requires DistinctNames(o)
    ensures Inv(o, g0, LinkIface(o, s, i, netdev, main, required).s)
  {
    hide LinkIface, WF, ConfigOk, LinkFits, PortLinkFits, Accounted, Untouched, DistinctNames;
    LinkIfaceEffect(o, s, i, netdev, main, required);
    var t := LinkIface(o, s, i, netdev, main, required).s;
    if s.links[i].None? && t.links[i].Some? {
      NewNamesTaken(o, g0, s, i, t.links[i].value);
    }
    Sizes(s.g);
    Sizes(t.g);
    forall x | 0 <= x < |s.g.marks| ensures
      && (t.g.marks[x].subDriver == s.g.marks[x].subDriver || (t.links[i].Some? && s.g.info[x].name == o.ifs[i].name))
      && t.g.marks[x].linkNet == s.g.marks[x].linkNet && t.g.marks[x].weakLink == s.g.marks[x].weakLink
    {
      LinkIfaceMarks(o, s, i, netdev, main, required, x);
    }
    RelinkKeeps(o, g0, s, t, i);
  }

  /** Re-parenting an entry that some interface or port links to keeps the invariant. */
  lemma ReparentKeeps(o: Config, g0: Graph, s: State, h: Graph, e: nat)
    requires Inv(o, g0, s) && WF(h) && h.info == s.g.info && SameLists(s.g, h) && SameNames(s.g, h)
    requires e < |s.g.master.up| && |h.master.up| == |s.g.master.up|
    requires forall x :: 0 <= x < |h.master.up| && x != e ==> h.master.up[x] == s.g.master.up[x]
    requires |h.link.up| == |s.g.link.up|
    requires SameMarks(s.g, h) && SameLinks(s.g, h, e)
    requires e >= |g0.info| || Owned(o, s, e, false)
    requires e >= |g0.info| || LinkKept(s.g, h, e) || Owned(o, s, e, true)
    requires forall x :: 0 <= x < |g0.info| ==> PeerKept(o, g0, s.(g := h), x)
    ensures Inv(o, g0, s.(g := h))
  {
    hide WF, ConfigOk, PeerKept;
    var t := s.(g := h);
    forall j | 0 <= j < |o.ifs| ensures LinkFits(o, g0, t, j) {
      assert LinkFits(o, g0, s, j);
    }
    forall p | 0 <= p < |o.ports| ensures PortLinkFits(o, g0, t, p) {
      assert PortLinkFits(o, g0, s, p);
    }
    forall x | |g0.info| <= x < |t.g.info| ensures Accounted(t, x) {
      assert Accounted(s, x);
    }
    forall x | 0 <= x < |g0.info| ensures Untouched(o, g0, t, x) {
      assert Untouched(o, g0, s, x);
    }
  }

  lemma GrowEffect(g: Graph, i: Info)
    requires WF(g) && i.ns == 0 && |g.spaces| > 0
    ensures var h := GrowIface(g, i);
      && h.info == g.info + [i] && h.master.up == g.master.up + [None] && h.peer == g.peer + [None]
      && h.link.up == g.link.up + [None] && |g.master.up| == |g.info| == |g.peer| == |g.link.up|
      && SameMarks(g, h) && SameLinks(g, h, |g.info|) && NoLink(h, |g.info|)
      && SameNames(g, h) && h.spaces[0].ifaces == g.spaces[0].ifaces + [|g.info|]
      && (forall j :: 0 < j < |g.spaces| ==> h.spaces[j].ifaces == g.spaces[j].ifaces)
  {
  }

  /** A new entry linked from the interface it was made for keeps the invariant. */
  lemma CreateForIface(o: Config, g0: Graph, s: State, i: nat, bridge: string)
    requires Inv(o, g0, s) && Listed(o, i) && s.links[i].None?
    requires bridge == o.bridges[o.ports[o.ifs[i].port].bridge].name
    ensures Inv(o, g0, Create(o, s, o.ifs[i].name, bridge).(links := s.links[i := Some(|s.g.info|)]))
  {
    hide WF, ConfigOk, Create;
    CreateEffect(o, s, o.ifs[i].name, bridge);
    var n := |s.g.info|;
    var t := Create(o, s, o.ifs[i].name, bridge).(links := s.links[i := Some(n)]);
    forall j | 0 <= j < |o.ifs| ensures LinkFits(o, g0, t, j) {
      assert LinkFits(o, g0, s, j);
    }
    forall p | 0 <= p < |o.ports| ensures PortLinkFits(o, g0, t, p) {
      assert PortLinkFits(o, g0, s, p);
    }
    GrownKeepsRest(o, g0, s, t);
    assert t.links[i] == Some(n);
  }

  lemma CreateForPort(o: Config, g0: Graph, s: State, p: nat, bridge: string)
    requires Inv(o, g0, s) && p < |o.ports| && Multi(o, p) && s.portLinks[p].None?
    requires o.ports[p].bridge < |o.bridges| && bridge == o.bridges[o.ports[p].bridge].name
    ensures Inv(o, g0, Create(o, s, o.ports[p].name, bridge).(portLinks := s.portLinks[p := Some(|s.g.info|)]))
  {
    hide WF, ConfigOk, Create;
    CreateEffect(o, s, o.ports[p].name, bridge);
    var n := |s.g.info|;
    var t := Create(o, s, o.ports[p].name, bridge).(portLinks := s.portLinks[p := Some(n)]);
    forall j | 0 <= j < |o.ifs| ensures LinkFits(o, g0, t, j) {
      assert LinkFits(o, g0, s, j);
    }
    forall q | 0 <= q < |o.ports| ensures PortLinkFits(o, g0, t, q) {
      assert PortLinkFits(o, g0, s, q);
    }
    GrownKeepsRest(o, g0, s, t);
    assert t.portLinks[p] == Some(n);
  }

  lemma CreateEffect(o: Config, s: State, name: string, bridge: string)
    requires StateOk(o, s)
    ensures var t := Create(o, s, name, bridge); var n := |s.g.info|;
      && StateOk(o, t) && t.links == s.links && t.portLinks == s.portLinks
      && t.g.info == s.g.info + [InternalInfo(name, bridge)]
      && t.g.master.up == s.g.master.up + [None] && t.g.peer == s.g.peer + [None]
      && t.g.link.up == s.g.link.up + [None] && |s.g.master.up| == |s.g.peer| == |s.g.link.up| == n
      && SameMarks(s.g, t.g) && SameLinks(s.g, t.g, n) && NoLink(t.g, n)
      && SameNames(s.g, t.g) && |s.g.spaces| > 0
      && t.g.spaces[0].ifaces == s.g.spaces[0].ifaces + [n]
      && (forall j :: 0 < j < |s.g.spaces| ==> t.g.spaces[j].ifaces == s.g.spaces[j].ifaces)
  {
    GrowEffect(s.g, InternalInfo(name, bridge));
  }

  /** The part of the invariant about entries, when one entry is added and one link set. */
  lemma GrownKeepsRest(o: Config, g0: Graph, s: State, t: State)
    requires Inv(o, g0, s) && |t.links| == |s.links| && |t.portLinks| == |s.portLinks|
    requires |t.g.info| == |s.g.info| + 1 && |t.g.master.up| == |s.g.master.up| + 1
    requires forall x :: 0 <= x < |s.g.master.up| ==> t.g.master.up[x] == s.g.master.up[x]
    requires s.g.link.up <= t.g.link.up && SameMarks(s.g, t.g) && SameLinks(s.g, t.g, |s.g.info|)
    requires s.g.peer <= t.g.peer
    requires forall i :: 0 <= i < |s.links| && s.links[i].Some? ==> t.links[i] == s.links[i]
    requires forall p :: 0 <= p < |s.portLinks| && s.portLinks[p].Some? ==> t.portLinks[p] == s.portLinks[p]
    ensures forall e :: |g0.info| <= e < |s.g.info| ==> Accounted(t, e)
    ensures forall e :: 0 <= e < |g0.info| ==> Untouched(o, g0, t, e) && PeerKept(o, g0, t, e)
  {
    hide WF, ConfigOk, StateOk, LinkFits, PortLinkFits, PeerKept;
    PeersCarried(o, g0, s, t);
    forall e | |g0.info| <= e < |s.g.info| ensures Accounted(t, e) {
      assert Accounted(s, e);
    }
    forall e | 0 <= e < |g0.info| ensures Untouched(o, g0, t, e) {
      assert Untouched(o, g0, s, e);
    }
  }

  // ----- parents

  /** The entry of the bridge's main interface, once known. */
  ghost function MainLink(o: Config, s: State, b: nat): Option<nat>
    requires ConfigOk(o) && b < |o.bridges| && |s.links| == |o.ifs|
  {
    match MainOf(o, b)
    case None => None
    case Some(i) => s.links[i]
  }

  /** The entry interface `i` must hang under: its port's own entry if the port has several
      interfaces, else the bridge's. */
  ghost function Parent(o: Config, s: State, i: nat): Option<nat>
    requires ConfigOk(o) && i < |o.ifs| && |s.links| == |o.ifs| && |s.portLinks| == |o.ports|
  {
    var p := o.ifs[i].port;
    if Multi(o, p) then s.portLinks[p] else MainLink(o, s, o.ports[p].bridge)
  }

  ghost predicate IfaceSettled(o: Config, s: State, i: nat)
    requires ConfigOk(o) && StateOk(o, s)
  {
    && i < |o.ifs| && s.links[i].Some? && Parent(o, s, i).Some?
    && s.g.master.up[s.links[i].value] == Parent(o, s, i)
  }

  ghost predicate PortSettled(o: Config, s: State, p: nat)
    requires ConfigOk(o) && StateOk(o, s)
  {
    && p < |o.ports|
    && (Multi(o, p) ==>
          && s.portLinks[p].Some? && MainLink(o, s, o.ports[p].bridge).Some?
          && s.g.master.up[s.portLinks[p].value] == MainLink(o, s, o.ports[p].bridge))
  }

  // ----- patch ports

  /** Two patch ports naming each other, with no device of either name before the pass and no
      third patch port naming either. */
  ghost predicate PatchPair(o: Config, g0: Graph, a: nat, b: nat) {
    && a < |o.ifs| && b < |o.ifs| && a != b
    && o.ifs[a].typ == "patch" && o.ifs[b].typ == "patch"
    && o.ifs[a].peer == Some(o.ifs[b].name) && o.ifs[b].peer == Some(o.ifs[a].name)
    && (forall e :: 0 <= e < |g0.info| ==> g0.info[e].name != o.ifs[a].name && g0.info[e].name != o.ifs[b].name)
    && (forall k :: 0 <= k < |o.ifs| && k != a && k != b && o.ifs[k].typ == "patch" ==>
          o.ifs[k].peer != Some(o.ifs[a].name) && o.ifs[k].peer != Some(o.ifs[b].name))
  }

  /** Once both have entries, they are each other's peer. */
  ghost predicate Met(s: State, a: nat, b: nat) {
    a < |s.links| && b < |s.links| && s.links[a].Some? && s.links[b].Some? ==>
      && s.links[a].value < |s.g.peer| && s.links[b].value < |s.g.peer|
      && s.g.peer[s.links[a].value] == s.links[b] && s.g.peer[s.links[b].value] == s.links[a]
  }

  ghost predicate PairsMet(o: Config, g0: Graph, s: State) {
    forall a: nat, b: nat :: PatchPair(o, g0, a, b) ==> Met(s, a, b)
  }

  /** Links to entries that existed before the pass, and new entries without peers, change nothing. */
  lemma PairsKept(o: Config, g0: Graph, s: State, t: State)
    requires PairsMet(o, g0, s) && Stable(s, t) && |s.links| == |o.ifs|
    requires |t.g.peer| >= |s.g.peer| && t.g.peer[..|s.g.peer|] == s.g.peer
    requires forall k :: 0 <= k < |o.ifs| && s.links[k].None? && t.links[k].Some? ==>
      t.links[k].value < |g0.info| && g0.info[t.links[k].value].name == o.ifs[k].name
    ensures PairsMet(o, g0, t)
  {
    forall a: nat, b: nat | PatchPair(o, g0, a, b) ensures Met(t, a, b) {
      assert Met(s, a, b);
      if t.links[a].Some? && t.links[b].Some? {
        assert s.links[a].Some? && s.links[b].Some?;
        assert t.g.peer[s.links[a].value] == s.g.peer[s.links[a].value];
        assert t.g.peer[s.links[b].value] == s.g.peer[s.links[b].value];
      }
    }
  }

  /** No entry from before the pass answers to the name of an end. */
  lemma NoOldNamed(o: Config, g0: Graph, s: State, a: nat, b: nat)
    requires Inv(o, g0, s) && PatchPair(o, g0, a, b)
    ensures forall e: nat :: e < |s.g.info| && s.g.info[e].name == o.ifs[a].name ==> e >= |g0.info|
  {
    assert forall e :: 0 <= e < |g0.info| ==> s.g.info[e] == s.g.info[..|g0.info|][e];
  }

  /** The only entry answering to the name of one end is the one it links to. */
  lemma OnlyHolder(o: Config, g0: Graph, s: State, a: nat, b: nat, e: nat)
    requires Inv(o, g0, s) && DistinctNames(o) && PatchPair(o, g0, a, b)
    requires e < |s.g.info| && s.g.info[e].name == o.ifs[a].name
    ensures a < |s.links| && s.links[a] == Some(e)
  {
    InvFacts(o, g0, s);
    hide Inv, WF;
    NoOldNamed(o, g0, s, a, b);
    NewAreNamed(o, g0, s, e);
  }

  /** The search for an end by its name finds it as soon as it has an entry. */
  lemma PatchSearch(o: Config, g0: Graph, s: State, h: Graph, a: nat, b: nat)
    requires Inv(o, g0, s) && DistinctNames(o) && PatchPair(o, g0, a, b)
    requires WF(h) && h.info == s.g.info
    ensures a < |s.links| && Result(h, ByPatch(Some(o.ifs[a].name)), None) == s.links[a]
    ensures !Unsure(h, ByPatch(Some(o.ifs[a].name)), None)
  {
    var q := ByPatch(Some(o.ifs[a].name));
    ResultMeaning(h, q, None);
    assert LinkFits(o, g0, s, a);
    hide Inv, DistinctNames, PatchPair, Result, Unsure, WF;
    forall e: nat | e < |h.info| && h.info[e].name == o.ifs[a].name ensures s.links[a] == Some(e) {
      OnlyHolder(o, g0, s, a, b, e);
    }
    if s.links[a].Some? {
      OldNameless(o, g0, s, a, b);
      assert Eligible(h, q, None, s.links[a].value);
    }
  }

  lemma OldNameless(o: Config, g0: Graph, s: State, a: nat, b: nat)
    requires Inv(o, g0, s) && PatchPair(o, g0, a, b) && s.links[a].Some?
    ensures s.links[a].value < |s.g.info| && s.g.info[s.links[a].value].internal
    ensures s.g.info[s.links[a].value].name == o.ifs[a].name
  {
    assert LinkFits(o, g0, s, a);
    NoOldNamed(o, g0, s, a, b);
  }

  lemma InfoKept(g0: Graph, g: Graph, e: nat)
    requires Grown(g0, g) && e < |g0.info|
    ensures g.info[e] == g0.info[e]
  {
  }

  lemma PatchPairSymmetric(o: Config, g0: Graph, a: nat, b: nat)
    requires PatchPair(o, g0, a, b)
    ensures PatchPair(o, g0, b, a)
  {
  }

  /** Treating one end pairs it with the other as soon as that has an entry too. */
  lemma AttachEnd(o: Config, g0: Graph, t: State, i: nat, j: nat, master: nat)
    requires Inv(o, g0, t) && DistinctNames(o) && PatchPair(o, g0, i, j)
    requires t.links[i].Some? && t.links[i].value < |t.g.info| && master < |t.g.info|
    ensures Met(t.(g := Attach(o, t.g, i, t.links[i].value, master)), i, j)
  {
    var e := t.links[i].value;
    var h := SetMaster(t.g, Some(master), e);
    PatchPairSymmetric(o, g0, i, j);
    PatchSearch(o, g0, t, h, j, i);
    if t.links[j].Some? {
      assert LinkFits(o, g0, t, j);
      SetPeerEffect(h.peer, Some(e), t.links[j]);
    }
  }

  /** The entry a patch search by another port finds is at neither end of the pair. */
  lemma FoundElsewhere(o: Config, g0: Graph, t: State, h: Graph, i: nat, a: nat, b: nat)
    requires Inv(o, g0, t) && PatchPair(o, g0, a, b) && i < |o.ifs| && i != a && o.ifs[i].typ == "patch" && i != b
    requires WF(h) && h.info == t.g.info && t.links[a].Some?
    requires Result(h, ByPatch(o.ifs[i].peer), None).Some?
    ensures Result(h, ByPatch(o.ifs[i].peer), None) != t.links[a]
  {
    ResultMeaning(h, ByPatch(o.ifs[i].peer), None);
    OldNameless(o, g0, t, a, b);
    hide Inv, WF, Result, Unsure;
  }

  /** Pairing two other entries does not disturb a pair. */
  lemma PairAway(h: Graph, e: nat, f: nat, x: nat, y: nat)
    requires WF(h) && e < |h.info| && f < |h.info| && x < |h.info| && y < |h.info|
    requires e != x && e != y && f != x && f != y && h.peer[x] == Some(y) && h.peer[y] == Some(x)
    ensures var k := Pair(h, Some(e), Some(f)); k.peer[x] == Some(y) && k.peer[y] == Some(x)
  {
    SetPeerEffect(h.peer, Some(e), Some(f));
  }

  /** A patch port's own pairing leaves the pair of two others together. */
  lemma PatchElsewhere(o: Config, g0: Graph, t: State, i: nat, a: nat, b: nat, master: nat)
    requires Inv(o, g0, t) && DistinctNames(o) && PatchPair(o, g0, a, b) && i < |o.ifs| && i != a && i != b
    requires t.links[i].Some? && t.links[i].value < |t.g.info| && master < |t.g.info|
    requires o.ifs[i].typ == "patch" && t.links[a].Some? && t.links[b].Some? && Met(t, a, b)
    ensures Met(t.(g := Attach(o, t.g, i, t.links[i].value, master)), a, b)
  {
    var e := t.links[i].value;
    var h := SetMaster(t.g, Some(master), e);
    InvFacts(o, g0, t);
    PairEnds(o, g0, a, b);
    DistinctEntries(o, g0, t);
    PatchPairSymmetric(o, g0, a, b);
    hide Inv, DistinctNames, PatchPair, Result, Unsure, WF;
    var r := Result(h, ByPatch(o.ifs[i].peer), None);
    if !Unsure(h, ByPatch(o.ifs[i].peer), None) && r.Some? {
      FoundElsewhere(o, g0, t, h, i, a, b);
      FoundElsewhere(o, g0, t, h, i, b, a);
      ResultId(h, ByPatch(o.ifs[i].peer), None);
      PairAway(h, e, r.value, t.links[a].value, t.links[b].value);
    }
  }

  /** Treating any other interface leaves a met pair together. */
  lemma AttachOther(o: Config, g0: Graph, t: State, i: nat, a: nat, b: nat, master: nat)
    requires Inv(o, g0, t) && DistinctNames(o) && PatchPair(o, g0, a, b) && i < |o.ifs| && i != a && i != b
    requires t.links[i].Some? && t.links[i].value < |t.g.info| && master < |t.g.info|
    requires Met(t, a, b)
    ensures Met(t.(g := Attach(o, t.g, i, t.links[i].value, master)), a, b)
  {
    hide Inv, DistinctNames, PatchPair, Attach, WF;
    InvFacts(o, g0, t);
    PairEnds(o, g0, a, b);
    AttachShape(o, t.g, i, t.links[i].value, master);
    if o.ifs[i].typ == "patch" && t.links[a].Some? && t.links[b].Some? {
      PatchElsewhere(o, g0, t, i, a, b, master);
    }
  }

  lemma InvFacts(o: Config, g0: Graph, t: State)
    requires Inv(o, g0, t)
    ensures WF(t.g) && |t.g.peer| == |t.g.info| && |t.links| == |o.ifs| && Grown(g0, t.g)
  {
  }

  lemma InvSizes(o: Config, g0: Graph, t: State)
    requires Inv(o, g0, t)
    ensures ConfigOk(o) && StateOk(o, t) && |t.portLinks| == |o.ports| && |t.g.info| == |t.g.master.up|
  {
  }

  lemma LinksInRange(o: Config, g0: Graph, s: State)
    requires Inv(o, g0, s)
    ensures forall i :: 0 <= i < |s.links| ==> s.links[i] != Some(|s.g.info|)
    ensures forall p :: 0 <= p < |s.portLinks| ==> s.portLinks[p] != Some(|s.g.info|)
  {
  }

  lemma PairsAttach(o: Config, g0: Graph, s: State, t: State, i: nat, master: nat)
    requires Inv(o, g0, t) && DistinctNames(o) && i < |o.ifs| && master < |t.g.info|
    requires t.links[i].Some? && t.links[i].value < |t.g.info|
    requires PairsMet(o, g0, s) && Stable(s, t) && t.links == s.links[i := t.links[i]]
    requires |t.g.peer| >= |s.g.peer| && t.g.peer[..|s.g.peer|] == s.g.peer
    ensures PairsMet(o, g0, t.(g := Attach(o, t.g, i, t.links[i].value, master)))
  {
    hide Inv, DistinctNames, Attach, PatchPair, WF;
    InvFacts(o, g0, t);
    var k := t.(g := Attach(o, t.g, i, t.links[i].value, master));
    forall a: nat, b: nat | PatchPair(o, g0, a, b) ensures Met(k, a, b) {
      PatchPairSymmetric(o, g0, a, b);
      PairEnds(o, g0, a, b);
      if i == a {
        AttachEnd(o, g0, t, a, b, master);
      } else if i == b {
        AttachEnd(o, g0, t, b, a, master);
      } else {
        assert Met(s, a, b);
        if s.links[a].Some? && s.links[b].Some? {
          assert t.g.peer[s.links[a].value] == s.g.peer[s.links[a].value];
          assert t.g.peer[s.links[b].value] == s.g.peer[s.links[b].value];
        }
        AttachOther(o, g0, t, i, a, b, master);
      }
    }
  }

  lemma PairEnds(o: Config, g0: Graph, a: nat, b: nat)
    requires PatchPair(o, g0, a, b)
    ensures a < |o.ifs| && b < |o.ifs|
  {
  }

  /** The kernel device of an interface, judged on the graph before the pass: when its bridge's main
      interface leads to an entry of that graph, the search by name gives no doubt there, and the
      interface is linked to what it finds, or to a new entry if it finds nothing. */
  ghost predicate Matched(o: Config, g0: Graph, s: State, i: nat)
    requires ConfigOk(o) && WF(g0) && |s.links| == |o.ifs|
  {
    && i < |o.ifs| && s.links[i].Some?
    && var main := MainLink(o, s, o.ports[o.ifs[i].port].bridge);
    && main.Some? && main.value < |g0.info|
    && var q := ByOvs(KeyOf(o, i, o.bridges[o.ports[o.ifs[i].port].bridge].netdev, main));
    && !Unsure(g0, q, None)
    && (if Result(g0, q, None).Some? then s.links[i] == Result(g0, q, None) else s.links[i].value >= |g0.info|)
  }

  // ----- links of tunnels

  /** Links and weak marks of all entries but `but` are the same in both graphs. */
  ghost predicate SameLinks(g: Graph, h: Graph, but: nat) {
    && |h.link.up| >= |g.link.up| && |h.marks| >= |g.marks|
    && (forall x :: 0 <= x < |g.link.up| && x != but ==> h.link.up[x] == g.link.up[x])
    && (forall x :: 0 <= x < |g.marks| && x != but ==> h.marks[x].weakLink == g.marks[x].weakLink)
  }

  ghost predicate LinkKept(g: Graph, h: Graph, e: nat) {
    && e < |g.link.up| && e < |h.link.up| && h.link.up[e] == g.link.up[e]
    && e < |g.marks| && e < |h.marks| && h.marks[e].weakLink == g.marks[e].weakLink
  }

  ghost predicate NoLink(g: Graph, e: nat) {
    e < |g.link.up| && e < |g.marks| && g.link.up[e] == None && !g.marks[e].weakLink
  }

  /** Link and weak mark of an entry before the pass; one that is new then has neither. */
  ghost function LinkBefore(g0: Graph, e: nat): (Option<nat>, bool)
    requires WF(g0)
  {
    if e < |g0.info| then (g0.link.up[e], g0.marks[e].weakLink) else (None, false)
  }

  /** New entries are in the root namespace. */
  function HomeOf(g0: Graph, e: nat): nat {
    if e < |g0.info| then g0.info[e].ns else 0
  }

  /** Link and weak mark entry `e` has to get when it becomes the one of interface `i`. */
  ghost function LinkWanted(o: Config, g0: Graph, i: nat, e: nat): (Option<nat>, bool)
    requires WF(g0) && |g0.spaces| > 0 && i < |o.ifs|
  {
    if !IsTunnel(o.ifs[i].typ) then LinkBefore(g0, e)
    else
      match o.ifs[i].localIp
      case NoLocal => LinkBefore(g0, e)
      case BadLocal => (None, true)
      case Local(a) => (Holder(g0, HomeOf(g0, e), a), true)
  }

  ghost predicate LinkSettled(o: Config, g0: Graph, s: State, i: nat) {
    && WF(g0) && |g0.spaces| > 0 && i < |o.ifs| && i < |s.links| && s.links[i].Some?
    && var e := s.links[i].value;
    && e < |s.g.link.up| && e < |s.g.marks|
    && (s.g.link.up[e], s.g.marks[e].weakLink) == LinkWanted(o, g0, i, e)
  }

  lemma LinkStays(o: Config, g0: Graph, s: State, t: State, i: nat, but: nat)
    requires LinkSettled(o, g0, s, i) && Stable(s, t) && s.links[i] != Some(but) && SameLinks(s.g, t.g, but)
    ensures LinkSettled(o, g0, t, i)
  {
    hide LinkWanted, WF;
  }

  /** Who holds an address is the same before the pass and during it: new entries hold none. */
  lemma HolderAsBefore(g0: Graph, h: Graph, ns: nat, a: Address)
    requires WF(g0) && WF(h) && Grown(g0, h) && ns < |g0.spaces|
    ensures ns < |h.spaces| && Holder(h, ns, a) == Holder(g0, ns, a)
  {
    hide WF, Holder;
    forall e: nat ensures Holds(h, ns, a, e) <==> Holds(g0, ns, a, e) {
      if e < |g0.info| {
        InfoKept(g0, h, e);
      }
    }
    HolderSame(g0, h, ns, a);
  }

  /** Before an interface gets its entry, that entry's link is as before the pass. */
  lemma UnlinkedAsBefore(o: Config, g0: Graph, s: State, i: nat, e: nat)
    requires Inv(o, g0, s) && DistinctNames(o) && i < |o.ifs| && s.links[i].None?
    requires e < |g0.info| && g0.info[e].name == o.ifs[i].name
    ensures e < |s.g.link.up| && e < |s.g.marks| && (s.g.link.up[e], s.g.marks[e].weakLink) == LinkBefore(g0, e)
  {
    hide WF, Accounted, PortLinkFits, ConfigOk;
    InfoKept(g0, s.g, e);
    assert Untouched(o, g0, s, e);
    forall j | 0 <= j < |o.ifs| && s.links[j].Some? ensures s.links[j] != Some(e) {
      assert LinkFits(o, g0, s, j);
    }
  }

  /** The interfaces in `di` and the ports in `dp` are done. */
  ghost predicate Kept(o: Config, g0: Graph, s: State, di: set<nat>, dp: set<nat>) {
    && Inv(o, g0, s) && PairsMet(o, g0, s)
    && (forall i {:trigger i in di} :: i in di ==>
          IfaceSettled(o, s, i) && Matched(o, g0, s, i) && LinkSettled(o, g0, s, i))
    && (forall p {:trigger p in dp} :: p in dp ==> PortSettled(o, s, p))
  }

  /** The same, and only those listed interfaces have links and only those ports have entries. */
  ghost predicate Settled(o: Config, g0: Graph, s: State, di: set<nat>, dp: set<nat>) {
    && Kept(o, g0, s, di, dp)
    && (forall i :: 0 <= i < |o.ifs| && Listed(o, i) && s.links[i].Some? ==> i in di)
    && (forall p :: 0 <= p < |o.ports| && s.portLinks[p].Some? ==> p in dp)
  }

  /** Links once set stay. */
  ghost predicate Stable(s: State, t: State) {
    && |t.links| == |s.links| && |t.portLinks| == |s.portLinks|
    && (forall i :: 0 <= i < |s.links| && s.links[i].Some? ==> t.links[i] == s.links[i])
    && (forall p :: 0 <= p < |s.portLinks| && s.portLinks[p].Some? ==> t.portLinks[p] == s.portLinks[p])
  }

  lemma MatchedStays(o: Config, g0: Graph, s: State, t: State, i: nat)
    requires ConfigOk(o) && WF(g0) && |s.links| == |o.ifs| && Stable(s, t) && Matched(o, g0, s, i)
    ensures Matched(o, g0, t, i)
  {
    hide Result, Unsure, WF;
  }

  /** Re-parenting at most the entry of something not in the done sets keeps what is done. */
  lemma SettledStays(o: Config, g0: Graph, s: State, t: State, di: set<nat>, dp: set<nat>, e: nat)
    requires Kept(o, g0, s, di, dp) && StateOk(o, t) && Stable(s, t)
    requires |t.g.master.up| >= |s.g.master.up|
    requires forall x :: 0 <= x < |s.g.master.up| && x != e ==> t.g.master.up[x] == s.g.master.up[x]
    requires forall i {:trigger i in di} :: i in di ==> s.links[i] != Some(e)
    requires forall p {:trigger p in dp} :: p in dp ==> s.portLinks[p] != Some(e)
    requires SameLinks(s.g, t.g, e)
    ensures forall i {:trigger i in di} :: i in di ==>
      IfaceSettled(o, t, i) && Matched(o, g0, t, i) && LinkSettled(o, g0, t, i)
    ensures forall p {:trigger p in dp} :: p in dp ==> PortSettled(o, t, p)
  {
    Sizes(s.g);
    hide WF, LinkFits, PortLinkFits, Accounted, Untouched, Result, Unsure, Matched, LinkSettled;
    forall i {:trigger i in di} | i in di
      ensures IfaceSettled(o, t, i) && Matched(o, g0, t, i) && LinkSettled(o, g0, t, i)
    {
      assert IfaceSettled(o, s, i);
      MatchedStays(o, g0, s, t, i);
      LinkStays(o, g0, s, t, i, e);
    }
    forall p {:trigger p in dp} | p in dp ensures PortSettled(o, t, p) {
      assert PortSettled(o, s, p);
    }
  }

  lemma LinkIfaceLinks(o: Config, s: State, i: nat, netdev: bool, main: Option<nat>, required: bool)
    requires StateOk(o, s) && i < |o.ifs| && Id(s.g, main)
    ensures var t := LinkIface(o, s, i, netdev, main, required).s; forall x :: SameLinks(s.g, t.g, x)
  {
    hide LinkIface, WF;
    LinkIfaceEffect(o, s, i, netdev, main, required);
    var t := LinkIface(o, s, i, netdev, main, required).s;
    Sizes(s.g);
    Sizes(t.g);
    forall x | 0 <= x < |s.g.marks| ensures t.g.marks[x].weakLink == s.g.marks[x].weakLink {
      LinkIfaceMarks(o, s, i, netdev, main, required, x);
    }
  }

  lemma SearchKeepsPlaces(o: Config, g0: Graph, s: State, di: set<nat>, dp: set<nat>, i: nat,
                          netdev: bool, main: Option<nat>, required: bool)
    requires Kept(o, g0, s, di, dp) && DistinctNames(o) && i < |o.ifs| && Id(s.g, main)
    ensures var t := LinkIface(o, s, i, netdev, main, required).s;
      && Inv(o, g0, t) && Stable(s, t) && t.portLinks == s.portLinks
      && (forall j {:trigger j in di} :: j in di ==>
            IfaceSettled(o, t, j) && Matched(o, g0, t, j) && LinkSettled(o, g0, t, j))
      && (forall p {:trigger p in dp} :: p in dp ==> PortSettled(o, t, p))
  {
    hide LinkIface, LinkFits, PortLinkFits, Accounted, Untouched, WF, ConfigOk, DistinctNames, Inv, Matched;
    InvFacts(o, g0, s);
    InvSizes(o, g0, s);
    LinksInRange(o, g0, s);
    LinkIfaceEffect(o, s, i, netdev, main, required);
    LinkIfaceKeeps(o, g0, s, i, netdev, main, required);
    LinkIfaceLinks(o, s, i, netdev, main, required);
    SettledStays(o, g0, s, LinkIface(o, s, i, netdev, main, required).s, di, dp, |s.g.info|);
  }

  lemma SearchKeepsPairs(o: Config, g0: Graph, s: State, i: nat, netdev: bool, main: Option<nat>, required: bool)
    requires Inv(o, g0, s) && PairsMet(o, g0, s) && DistinctNames(o) && i < |o.ifs| && Id(s.g, main)
    ensures PairsMet(o, g0, LinkIface(o, s, i, netdev, main, required).s)
  {
    hide LinkIface, WF, PatchPair, Inv, DistinctNames, Met;
    InvFacts(o, g0, s);
    InvSizes(o, g0, s);
    LinkIfaceEffect(o, s, i, netdev, main, required);
    var t := LinkIface(o, s, i, netdev, main, required).s;
    if s.links[i].None? && t.links[i].Some? {
      NewNamesTaken(o, g0, s, i, t.links[i].value);
      InfoKept(g0, s.g, t.links[i].value);
    }
    PairsKept(o, g0, s, t);
  }

  /** A search keeps everything that is done, whatever it finds. */
  lemma SearchKeeps(o: Config, g0: Graph, s: State, di: set<nat>, dp: set<nat>, i: nat,
                    netdev: bool, main: Option<nat>, required: bool)
    requires Kept(o, g0, s, di, dp) && DistinctNames(o) && i < |o.ifs| && Id(s.g, main)
    ensures var t := LinkIface(o, s, i, netdev, main, required).s;
      Kept(o, g0, t, di, dp) && Stable(s, t) && t.portLinks == s.portLinks
  {
    hide LinkIface, Inv, PairsMet, IfaceSettled, PortSettled, Matched, WF, DistinctNames;
    InvSizes(o, g0, s);
    SearchKeepsPlaces(o, g0, s, di, dp, i, netdev, main, required);
    SearchKeepsPairs(o, g0, s, i, netdev, main, required);
  }

  /** Pairing the ends of a patch cable separates no others. */
  lemma PairPeers(o: Config, g0: Graph, t: State, h: Graph, e: nat, r: nat, x: nat)
    requires WF(g0) && WF(h) && h.peer == t.g.peer && e < |h.info| && r < |h.info| && x < |g0.info| && x < |h.info|
    requires e < |g0.info| ==> PatchEnd(o, g0, t, e)
    requires r < |g0.info| ==> PatchEnd(o, g0, t, r)
    requires PeerKept(o, g0, t, x)
    ensures PeerKept(o, g0, t.(g := Pair(h, Some(e), Some(r))), x)
  {
    SetPeerEffect(h.peer, Some(e), Some(r));
  }

  lemma AttachPeers(o: Config, g0: Graph, t: State, i: nat, master: nat)
    requires Inv(o, g0, t) && i < |o.ifs| && master < |t.g.info|
    requires i < |t.links| && t.links[i].Some? && t.links[i].value < |t.g.info|
    ensures var h := Attach(o, t.g, i, t.links[i].value, master);
      forall x :: 0 <= x < |g0.info| ==> PeerKept(o, g0, t.(g := h), x)
  {
    var e := t.links[i].value;
    var h := Attach(o, t.g, i, e, master);
    AttachShape(o, t.g, i, e, master);
    InvFacts(o, g0, t);
    var k := SetMaster(t.g, Some(master), e);
    var q := ByPatch(o.ifs[i].peer);
    ResultMeaning(k, q, None);
    assert forall x :: 0 <= x < |g0.info| ==> PeerKept(o, g0, t, x);
    hide Inv, WF, PatchEnd, PeerKept, Result, Unsure, LinkTunnel;
    if o.ifs[i].typ == "patch" && !Unsure(k, q, None) && Result(k, q, None).Some? {
      PatchEnds(o, g0, t, i, e, Result(k, q, None).value);
      forall x | 0 <= x < |g0.info| ensures PeerKept(o, g0, t.(g := h), x) {
        PairPeers(o, g0, t, k, e, Result(k, q, None).value, x);
      }
    } else {
      PeersCarried(o, g0, t, t.(g := h));
    }
  }

  lemma PatchEnds(o: Config, g0: Graph, t: State, i: nat, e: nat, r: nat)
    requires Inv(o, g0, t) && i < |o.ifs| && i < |t.links| && t.links[i] == Some(e) && o.ifs[i].typ == "patch"
    requires r < |t.g.info| && t.g.info[r].internal
    ensures e < |g0.info| ==> PatchEnd(o, g0, t, e)
    ensures r < |g0.info| ==> PatchEnd(o, g0, t, r)
  {
    if r < |g0.info| {
      InfoKept(g0, t.g, r);
    }
  }

  /** The state of DoIface after the interface has its entry, before re-parenting. */
  ghost function Linked(o: Config, s: State, i: nat, netdev: bool, main: Option<nat>, bridge: string): (t: State)
    requires StateOk(o, s) && i < |o.ifs| && Id(s.g, main)
    ensures StateOk(o, t) && t.links[i].Some?
  {
    var r := LinkIface(o, s, i, netdev, main, false);
    if r.s.links[i].Some? then r.s
    else Create(o, r.s, o.ifs[i].name, bridge).(links := r.s.links[i := Some(|r.s.g.info|)])
  }

  lemma LinkedEffect(o: Config, g0: Graph, s: State, i: nat, netdev: bool, main: Option<nat>, bridge: string)
    requires Inv(o, g0, s) && DistinctNames(o) && Listed(o, i) && Id(s.g, main)
    requires bridge == o.bridges[o.ports[o.ifs[i].port].bridge].name
    ensures var t := Linked(o, s, i, netdev, main, bridge); var e := t.links[i].value;
      && Inv(o, g0, t) && Stable(s, t) && t.portLinks == s.portLinks && e < |t.g.info|
      && t.links == s.links[i := t.links[i]]
      && |t.g.master.up| == |t.g.info| >= |s.g.master.up| == |s.g.info|
      && t.g.info[..|s.g.info|] == s.g.info
      && (forall x :: 0 <= x < |s.g.master.up| ==> t.g.master.up[x] == s.g.master.up[x])
      && |t.g.peer| >= |s.g.peer| && t.g.peer[..|s.g.peer|] == s.g.peer
      && (e >= |s.g.info| ==> t.g.info[e] == InternalInfo(o.ifs[i].name, bridge) && t.g.peer == s.g.peer + [None])
      && (e < |s.g.info| ==> t.g.info == s.g.info && t.g.peer == s.g.peer)
  {
    hide LinkIface, WF, ConfigOk, LinkFits, PortLinkFits, Accounted, Untouched, DistinctNames, Create;
    LinkIfaceEffect(o, s, i, netdev, main, false);
    LinkIfaceKeeps(o, g0, s, i, netdev, main, false);
    var r := LinkIface(o, s, i, netdev, main, false).s;
    Sizes(s.g);
    Sizes(r.g);
    if r.links[i].None? {
      CreateForIface(o, g0, r, i, bridge);
      CreateEffect(o, r, o.ifs[i].name, bridge);
    }
  }

  lemma DoIfaceIs(o: Config, s: State, i: nat, netdev: bool, main: Option<nat>, bridge: string, master: nat)
    requires StateOk(o, s) && i < |o.ifs| && Id(s.g, main) && master < |s.g.info|
    requires |Linked(o, s, i, netdev, main, bridge).g.info| >= |s.g.info|
    ensures var r := DoIface(o, s, i, netdev, main, bridge, master); var t := Linked(o, s, i, netdev, main, bridge);
      && (r.err == 0 ==> r.s == t.(g := Attach(o, t.g, i, t.links[i].value, master)))
      && (r.err != 0 ==> r == LinkIface(o, s, i, netdev, main, false))
      && (r.err == 0 <==> LinkIface(o, s, i, netdev, main, false).err == 0)
  {
  }

  lemma OwnedBy(o: Config, s: State, i: nat, e: nat)
    requires i < |o.ifs| && i < |s.links| && s.links[i] == Some(e)
    ensures Owned(o, s, e, false) && (IsTunnel(o.ifs[i].typ) ==> Owned(o, s, e, true))
  {
  }

  /** A step that ends with an error keeps what is done; one that succeeds adds to it. */
  ghost predicate After(o: Config, g0: Graph, r: Res, di: set<nat>, dp: set<nat>, moreI: set<nat>, moreP: set<nat>) {
    if r.err == 0 then Settled(o, g0, r.s, di + moreI, dp + moreP) else Kept(o, g0, r.s, di, dp)
  }

  lemma KeptLess(o: Config, g0: Graph, s: State, di: set<nat>, dp: set<nat>, di': set<nat>, dp': set<nat>)
    requires Kept(o, g0, s, di, dp) && di' <= di && dp' <= dp
    ensures Kept(o, g0, s, di', dp')
  {
    hide Inv, PairsMet, IfaceSettled, PortSettled, Matched;
  }

  /** Interface `i` of bridge `b` can be treated: its parent's entry is known, its own is not. */
  ghost predicate CanTreat(o: Config, s: State, di: set<nat>, i: nat, b: nat, master: nat)
    requires ConfigOk(o) && |s.links| == |o.ifs| && |s.portLinks| == |o.ports|
  {
    && Listed(o, i) && i !in di && b == o.ports[o.ifs[i].port].bridge
    && MainLink(o, s, b).Some? && Parent(o, s, i) == Some(master)
  }

  /** The main interface of a bridge is never given a new entry. */
  lemma MainIsOld(o: Config, g0: Graph, s: State, b: nat)
    requires Inv(o, g0, s) && b < |o.bridges| && MainLink(o, s, b).Some?
    ensures MainLink(o, s, b).value < |g0.info|
  {
    hide WF, Accounted, Untouched, PortLinkFits;
    var i := MainOf(o, b).value;
    PortIfaces(o, o.bridges[b].system.value);
    assert LinkFits(o, g0, s, i);
  }

  /** An unlinked interface's candidates have the relations they had before the pass. */
  lemma CandidateAsBefore(o: Config, g0: Graph, s: State, i: nat, e: nat)
    requires Inv(o, g0, s) && DistinctNames(o) && i < |o.ifs| && s.links[i].None?
    requires e < |g0.info| && g0.info[e].name == o.ifs[i].name
    ensures e < |s.g.info| && s.g.info[e] == g0.info[e]
    ensures e < |s.g.marks| && e < |g0.marks| && s.g.marks[e].subDriver == g0.marks[e].subDriver
    ensures e < |s.g.master.up| && e < |g0.master.up| && s.g.master.up[e] == g0.master.up[e]
  {
    hide WF, Accounted, PortLinkFits, ConfigOk;
    InfoKept(g0, s.g, e);
    assert Untouched(o, g0, s, e);
    forall j | 0 <= j < |o.ifs| && s.links[j].Some? ensures s.links[j] != Some(e) && o.ifs[j].name != o.ifs[i].name {
      assert LinkFits(o, g0, s, j);
    }
  }

  lemma OldScore(o: Config, g0: Graph, s: State, i: nat, netdev: bool, main: Option<nat>, e: nat)
    requires Inv(o, g0, s) && DistinctNames(o) && i < |o.ifs| && s.links[i].None?
    requires WF(s.g) && Id(g0, main) && Id(s.g, main) && e < |g0.info| && e < |s.g.info|
    ensures var k := KeyOf(o, i, netdev, main); OvsScore(s.g, k, e) == OvsScore(g0, k, e)
  {
    InfoKept(g0, s.g, e);
    if main.Some? {
      InfoKept(g0, s.g, main.value);
    }
    SpaceOf(g0, e);
    InvFacts(o, g0, s);
    Sizes(g0);
    OldMaster(g0, e);
    hide Inv, DistinctNames;
    if g0.info[e].name == o.ifs[i].name {
      CandidateAsBefore(o, g0, s, i, e);
      if g0.master.up[e].Some? {
        InfoKept(g0, s.g, g0.master.up[e].value);
      }
    }
  }

  lemma SpaceOf(g: Graph, e: nat)
    requires WF(g) && e < |g.info|
    ensures g.info[e].ns < |g.spaces|
  {
  }

  lemma OldMaster(g: Graph, e: nat)
    requires WF(g) && e < |g.info|
    ensures e < |g.master.up| && Id(g, g.master.up[e])
  {
  }

  lemma SameJudgement(g: Graph, h: Graph, q: Query)
    requires WF(g) && WF(h) && Sane(g, q) && Sane(h, q)
    requires forall e: nat :: Eligible(g, q, None, e) <==> Eligible(h, q, None, e)
    requires forall e: nat :: Eligible(h, q, None, e) ==> e < |g.info| && Score(g, q, e) == Score(h, q, e)
    ensures Unsure(g, q, None) == Unsure(h, q, None)
    ensures !Unsure(h, q, None) ==> Result(g, q, None) == Result(h, q, None)
  {
    hide WF, Sane, Score, Result, Unsure;
    ResultMeaning(g, q, None);
    ResultMeaning(h, q, None);
  }

  /** Searching for an unlinked interface now or before the pass makes no difference. */
  lemma SearchAsBefore(o: Config, g0: Graph, s: State, i: nat, netdev: bool, main: Option<nat>)
    requires Inv(o, g0, s) && DistinctNames(o) && i < |o.ifs| && s.links[i].None?
    requires WF(g0) && WF(s.g) && Id(g0, main) && Id(s.g, main)
    ensures var q := ByOvs(KeyOf(o, i, netdev, main));
      && Unsure(s.g, q, None) == Unsure(g0, q, None)
      && (!Unsure(g0, q, None) ==> Result(s.g, q, None) == Result(g0, q, None))
  {
    var q := ByOvs(KeyOf(o, i, netdev, main));
    InvFacts(o, g0, s);
    hide Inv, DistinctNames, Result, Unsure, WF, OvsScore;
    forall e: nat ensures Eligible(s.g, q, None, e) <==> Eligible(g0, q, None, e) {
      EligibleAsBefore(o, g0, s, i, netdev, main, e);
    }
    forall e: nat | Eligible(g0, q, None, e) ensures Score(s.g, q, e) == Score(g0, q, e) {
      OldScore(o, g0, s, i, netdev, main, e);
    }
    SameJudgement(s.g, g0, q);
  }

  lemma EligibleAsBefore(o: Config, g0: Graph, s: State, i: nat, netdev: bool, main: Option<nat>, e: nat)
    requires Inv(o, g0, s) && DistinctNames(o) && i < |o.ifs| && s.links[i].None?
    requires WF(g0) && WF(s.g) && Id(g0, main) && Id(s.g, main)
    ensures var q := ByOvs(KeyOf(o, i, netdev, main));
      Eligible(s.g, q, None, e) <==> Eligible(g0, q, None, e)
  {
    hide Inv, DistinctNames, WF;
    InvFacts(o, g0, s);
    if e < |g0.info| {
      OldScore(o, g0, s, i, netdev, main, e);
    } else if e < |s.g.info| && s.g.info[e].name == o.ifs[i].name {
      NewNamesTaken(o, g0, s, i, e);
    }
  }

  lemma MatchedNow(o: Config, g0: Graph, s: State, i: nat, b: nat, bridge: string)
    requires Inv(o, g0, s) && DistinctNames(o) && ConfigOk(o) && Listed(o, i) && |s.links| == |o.ifs| &&
      s.links[i].None?
    requires b == o.ports[o.ifs[i].port].bridge && MainLink(o, s, b).Some? && Id(s.g, MainLink(o, s, b)) && WF(g0)
    requires StateOk(o, s) && LinkIface(o, s, i, o.bridges[b].netdev, MainLink(o, s, b), false).err == 0
    requires bridge == o.bridges[b].name
    ensures var t := Linked(o, s, i, o.bridges[b].netdev, MainLink(o, s, b), bridge);
      |t.links| == |o.ifs| && Matched(o, g0, t, i)
  {
    hide Inv, DistinctNames, Result, Unsure, WF, ConfigOk;
    var main, netdev := MainLink(o, s, b), o.bridges[b].netdev;
    InvFacts(o, g0, s);
    MainIsOld(o, g0, s, b);
    SearchAsBefore(o, g0, s, i, netdev, main);
    var t := Linked(o, s, i, netdev, main, bridge);
    LinkedEffect(o, g0, s, i, netdev, main, bridge);
    MainStays(o, s, t, b);
  }

  lemma MainStays(o: Config, s: State, t: State, b: nat)
    requires ConfigOk(o) && b < |o.bridges| && |s.links| == |o.ifs| && Stable(s, t) && MainLink(o, s, b).Some?
    ensures MainLink(o, t, b) == MainLink(o, s, b)
  {
  }

  lemma DoIfaceSettles(o: Config, g0: Graph, s: State, di: set<nat>, dp: set<nat>, i: nat, b: nat,
                       bridge: string, master: nat)
    requires Settled(o, g0, s, di, dp) && DistinctNames(o) && b < |o.bridges| && CanTreat(o, s, di, i, b, master)
    requires Id(s.g, MainLink(o, s, b)) && master < |s.g.info| && bridge == o.bridges[b].name
    ensures var r := DoIface(o, s, i, o.bridges[b].netdev, MainLink(o, s, b), bridge, master);
      After(o, g0, r, di, dp, {i}, {}) && Stable(s, r.s)
  {
    hide DoIface, Linked, Attach, WF, LinkFits, PortLinkFits, Accounted, Untouched, DistinctNames, Owned, Inv,
      PairsMet, IfaceSettled, PortSettled, ConfigOk, StateOk, LinkIface, Parent, Kept, MainLink, Matched;
    KeptFacts(o, g0, s, di, dp);
    var main, netdev := MainLink(o, s, b), o.bridges[b].netdev;
    LinkedEffect(o, g0, s, i, netdev, main, bridge);
    DoIfaceIs(o, s, i, netdev, main, bridge, master);
    if DoIface(o, s, i, netdev, main, bridge, master).err == 0 {
      AttachSettles(o, g0, s, di, dp, i, b, bridge, master);
      assert dp + {} == dp;
    } else {
      SearchKeeps(o, g0, s, di, dp, i, netdev, main, false);
    }
  }

  lemma KeptFacts(o: Config, g0: Graph, s: State, di: set<nat>, dp: set<nat>)
    requires Kept(o, g0, s, di, dp)
    ensures Inv(o, g0, s) && ConfigOk(o) && StateOk(o, s) && WF(g0) && |s.links| == |o.ifs| &&
      |s.portLinks| == |o.ports|
  {
  }

  /** Treating an interface changes no other entry's link, and its own only for a tunnel with an address. */
  lemma AttachLinks(o: Config, g: Graph, i: nat, e: nat, master: nat)
    requires WF(g) && i < |o.ifs| && e < |g.info| && master < |g.info|
    ensures var h := Attach(o, g, i, e, master);
      && SameLinks(g, h, e) && e < |h.link.up| && e < |h.marks|
      && (!IsTunnel(o.ifs[i].typ) || o.ifs[i].localIp.NoLocal? ==> LinkKept(g, h, e))
      && (IsTunnel(o.ifs[i].typ) && !o.ifs[i].localIp.NoLocal? ==>
            && h.link.up[e] == (match o.ifs[i].localIp case Local(a) => Holder(g, g.info[e].ns, a) case _ => None)
            && h.marks[e].weakLink)
  {
    hide Holder, Mirror, Involution, Placed, Result, Unsure, LinkPatch;
    Sizes(g);
    var k := SetMaster(g, Some(master), e);
    Sizes(k);
    PatchLinks(k, e, o.ifs[i].peer);
    if IsTunnel(o.ifs[i].typ) {
      if o.ifs[i].localIp.Local? {
        SpaceOf(g, e);
        HolderAlike(g, k, g.info[e].ns, o.ifs[i].localIp.addr);
        HolderId(k, k.info[e].ns, o.ifs[i].localIp.addr);
        SetUpKeepsMirror(k.link, Holder(k, k.info[e].ns, o.ifs[i].localIp.addr), e);
      } else {
        SetUpKeepsMirror(k.link, None, e);
      }
    }
  }

  lemma PatchLinks(g: Graph, e: nat, peer: Option<string>)
    requires WF(g) && e < |g.info|
    ensures var h := LinkPatch(g, e, peer);
      h.link == g.link && |h.marks| == |g.marks|
        && forall x :: 0 <= x < |g.marks| ==> h.marks[x].weakLink == g.marks[x].weakLink
  {
    hide Mirror, Involution, Placed, Result, Unsure;
    ResultId(g, ByPatch(peer), None);
  }

  lemma HolderAlike(g: Graph, h: Graph, ns: nat, a: Address)
    requires WF(g) && WF(h) && h.info == g.info && ns < |g.spaces| && ns < |h.spaces|
    ensures Holder(h, ns, a) == Holder(g, ns, a)
  {
    hide WF, Holder;
    HolderSame(g, h, ns, a);
  }

  /** The state with the entry linked, before it is treated: nobody's link has changed. */
  lemma LinkedLinks(o: Config, g0: Graph, s: State, i: nat, netdev: bool, main: Option<nat>, bridge: string)
    requires Inv(o, g0, s) && DistinctNames(o) && i < |o.ifs| && s.links[i].None? && Id(s.g, main)
    ensures var t := Linked(o, s, i, netdev, main, bridge); var e := t.links[i].value;
      && SameLinks(s.g, t.g, |s.g.info|)
      && e < |t.g.link.up| && e < |t.g.marks| && (t.g.link.up[e], t.g.marks[e].weakLink) == LinkBefore(g0, e)
  {
    hide LinkIface, ConfigOk, LinkFits, PortLinkFits, Accounted, Untouched, DistinctNames, Create, WF, LinkBefore;
    LinkIfaceEffect(o, s, i, netdev, main, false);
    LinkIfaceLinks(o, s, i, netdev, main, false);
    var r := LinkIface(o, s, i, netdev, main, false).s;
    Sizes(s.g);
    Sizes(r.g);
    if r.links[i].None? {
      CreateEffect(o, r, o.ifs[i].name, bridge);
      NewLinkBefore(g0, r.g);
      SameLinksTrans(s.g, r.g, Linked(o, s, i, netdev, main, bridge).g, |s.g.info|);
    } else {
      var e := r.links[i].value;
      NewNamesTaken(o, g0, s, i, e);
      InfoKept(g0, s.g, e);
      UnlinkedAsBefore(o, g0, s, i, e);
      assert e != |s.g.info|;
    }
  }

  lemma SameLinksTrans(g: Graph, h: Graph, k: Graph, but: nat)
    requires SameLinks(g, h, but) && SameLinks(h, k, but)
    ensures SameLinks(g, k, but)
  {
  }

  lemma NewLinkBefore(g0: Graph, g: Graph)
    requires WF(g0) && |g.info| >= |g0.info|
    ensures LinkBefore(g0, |g.info|) == (None, false)
  {
  }

  lemma NowLinked(o: Config, g0: Graph, t: State, i: nat, master: nat)
    requires Inv(o, g0, t) && i < |o.ifs| && t.links[i].Some? && master < |t.g.info|
    requires t.links[i].value < |t.g.link.up| && t.links[i].value < |t.g.marks|
    requires (t.g.link.up[t.links[i].value], t.g.marks[t.links[i].value].weakLink) == LinkBefore(g0, t.links[i].value)
    ensures t.links[i].value < |t.g.info|
    ensures LinkSettled(o, g0, t.(g := Attach(o, t.g, i, t.links[i].value, master)), i)
  {
    var e := t.links[i].value;
    InvFacts(o, g0, t);
    assert LinkFits(o, g0, t, i);
    HomeIs(o, g0, t, i);
    hide Inv, WF, Holder, Attach, LinkBefore, HomeOf;
    Sizes(t.g);
    AttachLinks(o, t.g, i, e, master);
    if o.ifs[i].localIp.Local? {
      HolderAsBefore(g0, t.g, HomeOf(g0, e), o.ifs[i].localIp.addr);
    }
  }

  lemma HomeIs(o: Config, g0: Graph, t: State, i: nat)
    requires Inv(o, g0, t) && i < |o.ifs| && t.links[i].Some?
    ensures var e := t.links[i].value;
      e < |t.g.info| && t.g.info[e].ns == HomeOf(g0, e) && HomeOf(g0, e) < |g0.spaces| && |g0.spaces| > 0 && WF(g0)
  {
    assert LinkFits(o, g0, t, i);
    var e := t.links[i].value;
    if e < |g0.info| {
      InfoKept(g0, t.g, e);
      SpaceOf(g0, e);
    }
  }

  lemma AttachSettles(o: Config, g0: Graph, s: State, di: set<nat>, dp: set<nat>, i: nat, b: nat,
                      bridge: string, master: nat)
    requires Kept(o, g0, s, di, dp) && DistinctNames(o) && b < |o.bridges| && CanTreat(o, s, di, i, b, master)
    requires Id(s.g, MainLink(o, s, b)) && master < |s.g.info| && s.links[i].None? && bridge == o.bridges[b].name
    requires LinkIface(o, s, i, o.bridges[b].netdev, MainLink(o, s, b), false).err == 0
    ensures var t := Linked(o, s, i, o.bridges[b].netdev, MainLink(o, s, b), bridge);
      && t.links[i].value < |t.g.info| && master < |t.g.info|
      && var u := t.(g := Attach(o, t.g, i, t.links[i].value, master));
      Kept(o, g0, u, di + {i}, dp) && Stable(s, u) && u.portLinks == s.portLinks && u.links == s.links[i := u.links[i]]
  {
    hide DoIface, Linked, Attach, WF, Inv, DistinctNames, Matched, LinkIface, LinkSettled, LinkBefore, PairsMet,
      StateOk, ConfigOk;
    KeptFacts(o, g0, s, di, dp);
    var main, netdev := MainLink(o, s, b), o.bridges[b].netdev;
    MatchedNow(o, g0, s, i, b, bridge);
    LinkedEffect(o, g0, s, i, netdev, main, bridge);
    LinkedLinks(o, g0, s, i, netdev, main, bridge);
    var t := Linked(o, s, i, netdev, main, bridge);
    var e := t.links[i].value;
    InvFacts(o, g0, s);
    InvFacts(o, g0, t);
    Sizes(s.g);
    var u := t.(g := Attach(o, t.g, i, e, master));
    AttachKeeps(o, g0, t, i, master);
    InvSizes(o, g0, u);
    AttachShape(o, t.g, i, e, master);
    AttachLinks(o, t.g, i, e, master);
    SameLinksWeaken(s.g, t.g, u.g, |s.g.info|, e);
    OthersElsewhere(o, g0, t, i, di, dp);
    SettledStays(o, g0, s, u, di, dp, e);
    PairsAttach(o, g0, s, t, i, master);
    MatchedStays(o, g0, t, u, i);
    NowLinked(o, g0, t, i, master);
    NowPlaced(o, s, u, di, i, b, master);
  }

  lemma NowPlaced(o: Config, s: State, u: State, di: set<nat>, i: nat, b: nat, master: nat)
    requires ConfigOk(o) && StateOk(o, u) && |s.links| == |o.ifs| && |s.portLinks| == |o.ports| && Stable(s, u)
    requires CanTreat(o, s, di, i, b, master) && u.links[i].Some? && u.links[i].value < |u.g.master.up|
    requires u.g.master.up[u.links[i].value] == Some(master)
    ensures IfaceSettled(o, u, i)
  {
    hide WF, ConfigOk;
  }

  lemma AttachKeeps(o: Config, g0: Graph, t: State, i: nat, master: nat)
    requires Inv(o, g0, t) && i < |o.ifs| && master < |t.g.info| && t.links[i].Some? && t.links[i].value < |t.g.info|
    ensures Inv(o, g0, t.(g := Attach(o, t.g, i, t.links[i].value, master)))
  {
    hide Attach, WF, LinkFits, PortLinkFits, Accounted, Untouched, Owned;
    var e := t.links[i].value;
    AttachShape(o, t.g, i, e, master);
    AttachMarks(o, t.g, i, e, master);
    AttachLinks(o, t.g, i, e, master);
    OwnedBy(o, t, i, e);
    Sizes(t.g);
    Sizes(Attach(o, t.g, i, e, master));
    AttachPeers(o, g0, t, i, master);
    ReparentKeeps(o, g0, t, Attach(o, t.g, i, e, master), e);
  }

  /** What is done has other entries. */
  lemma OthersElsewhere(o: Config, g0: Graph, t: State, i: nat, di: set<nat>, dp: set<nat>)
    requires Inv(o, g0, t) && DistinctNames(o) && i < |o.ifs| && t.links[i].Some? && i !in di
    ensures forall j {:trigger j in di} :: j in di && j < |o.ifs| ==> t.links[j] != t.links[i]
    ensures forall p {:trigger p in dp} :: p in dp && p < |o.ports| ==> t.portLinks[p] != t.links[i]
  {
    hide DistinctNames, Inv;
    DistinctEntries(o, g0, t);
  }

  lemma SameLinksWeaken(g: Graph, h: Graph, k: Graph, n: nat, e: nat)
    requires SameLinks(g, h, n) && SameLinks(h, k, e) && |g.link.up| <= n && |g.marks| <= n
    ensures SameLinks(g, k, e)
  {
  }
}
