/** The interface graph as a value. Interfaces and namespaces are numbered in order of
    creation; the heap structures of Topology.dfy are proved to follow this value. */
module Model {
  import opened Common

  // ----- a forward pointer and its reverse index (master/rev_master, link/rev_link)

  /** `up[x]` is where x points; `down[m]` lists, in order, the entries pointing to m. */
  datatype Rel = Rel(up: seq<Option<nat>>, down: seq<seq<nat>>)

  ghost predicate Mirror(r: Rel) {
    && |r.up| == |r.down|
    && (forall x :: 0 <= x < |r.up| && r.up[x].Some? ==>
          r.up[x].value < |r.up| && x in r.down[r.up[x].value])
    && (forall m, x {:trigger x in r.down[m]} :: 0 <= m < |r.down| && x in r.down[m] ==>
      x < |r.up| && r.up[x] == Some(m))
    && (forall m :: 0 <= m < |r.down| ==> NoDup(r.down[m]))
  }

  /** Take `x` off the reverse list it is on; its forward pointer is the caller's affair. */
  function Unhook(r: Rel, x: nat): Rel
    requires x < |r.up| == |r.down|
    requires r.up[x].Some? ==> r.up[x].value < |r.up|
  {
    match r.up[x]
    case None => r
    case Some(m) => r.(down := r.down[m := Without(r.down[m], x)])
  }

  /** Point `x` at `t` and append it to the reverse list of `t`. */
  function Hook(r: Rel, t: Option<nat>, x: nat): Rel
    requires x < |r.up| == |r.down|
    requires t.Some? ==> t.value < |r.up|
  {
    Rel(r.up[x := t],
        match t
        case None => r.down
        case Some(m) => r.down[m := r.down[m] + [x]])
  }

  /** master_set and link_set as one function of the relation. */
  function SetUp(r: Rel, t: Option<nat>, x: nat): Rel
    requires x < |r.up| == |r.down|
    requires t.Some? ==> t.value < |r.up|
    requires r.up[x].Some? ==> r.up[x].value < |r.up|
  {
    Hook(Unhook(r, x), t, x)
  }

  lemma SetUpKeepsMirror(r: Rel, t: Option<nat>, x: nat)
    requires Mirror(r) && x < |r.up| && (t.Some? ==> t.value < |r.up|)
    ensures Mirror(SetUp(r, t, x))
    ensures SetUp(r, t, x).up == r.up[x := t]
  {
    var u := Unhook(r, x);
    if r.up[x].Some? {
      var m := r.up[x].value;
      WithoutMembers(r.down[m], x);
      WithoutNoDup(r.down[m], x);
    }
    assert forall m :: 0 <= m < |u.down| ==> NoDup(u.down[m]) && x !in u.down[m];
  }

  /** Detaching first makes no difference. */
  lemma SetUpTwice(r: Rel, t: Option<nat>, x: nat)
    requires Mirror(r) && x < |r.up| && (t.Some? ==> t.value < |r.up|)
    ensures Mirror(SetUp(r, None, x))
    ensures SetUp(SetUp(r, None, x), t, x) == SetUp(r, t, x)
  {
    SetUpKeepsMirror(r, None, x);
  }

  // ----- peers

  ghost predicate Mutual(p: seq<Option<nat>>, x: nat)
    requires x < |p|
  {
    p[x].Some? ==> p[x].value < |p| && p[p[x].value] == Some(x)
  }

  /** Nobody's peer, or the peer of one's own peer. */
  ghost predicate Involution(p: seq<Option<nat>>) {
    forall x :: 0 <= x < |p| ==> Mutual(p, x)
  }

  ghost predicate InRange(p: seq<Option<nat>>) {
    forall x :: 0 <= x < |p| && p[x].Some? ==> p[x].value < |p|
  }

  /** One half of peer_set: drop the old partner of `a`, then point `a` at `b`. */
  function Repoint(p: seq<Option<nat>>, a: Option<nat>, b: Option<nat>): (q: seq<Option<nat>>)
    requires a.Some? ==> a.value < |p| && (p[a.value].Some? ==> p[a.value].value < |p|)
    ensures |q| == |p|
    ensures forall x :: 0 <= x < |p| ==>
      q[x] == if a == Some(x) then b else if a.Some? && p[a.value] == Some(x) then None else p[x]
  {
    match a
    case None => p
    case Some(x) => (match p[x] case None => p case Some(y) => p[y := None])[x := b]
  }

  function SetPeer(p: seq<Option<nat>>, a: Option<nat>, b: Option<nat>): (q: seq<Option<nat>>)
    requires InRange(p)
    requires a.Some? ==> a.value < |p|
    requires b.Some? ==> b.value < |p|
    ensures |q| == |p|
  {
    Repoint(Repoint(p, a, b), b, a)
  }

  function PeerAfter(p: seq<Option<nat>>, a: Option<nat>, b: Option<nat>, x: nat): Option<nat>
    requires x < |p|
  {
    if a == Some(x) then b
    else if b == Some(x) then a
    else if p[x].Some? && (p[x] == a || p[x] == b) then None
    else p[x]
  }

  lemma SetPeerAt(p: seq<Option<nat>>, a: Option<nat>, b: Option<nat>, x: nat)
    requires InRange(p) && x < |p| && Mutual(p, x)
    requires a.Some? ==> a.value < |p| && Mutual(p, a.value)
    requires b.Some? ==> b.value < |p| && Mutual(p, b.value)
    ensures SetPeer(p, a, b)[x] == PeerAfter(p, a, b, x)
  {
    var q := Repoint(p, a, b);
    var r := Repoint(q, b, a);
    if b == Some(x) {
    } else if b.Some? && q[b.value] == Some(x) {
      assert r[x] == None;
    } else {
      assert r[x] == q[x];
    }
  }

  /** peer_set for all arguments (absent ends, the same end twice, ends already paired):
      the two become each other's peer, their former partners become single, nobody else
      changes, and the relation stays an involution. */
  lemma SetPeerEffect(p: seq<Option<nat>>, a: Option<nat>, b: Option<nat>)
    requires Involution(p) && InRange(p)
    requires a.Some? ==> a.value < |p|
    requires b.Some? ==> b.value < |p|
    ensures Involution(SetPeer(p, a, b)) && InRange(SetPeer(p, a, b))
    ensures forall x :: 0 <= x < |p| ==> SetPeer(p, a, b)[x] == PeerAfter(p, a, b, x)
  {
    var r := SetPeer(p, a, b);
    forall x | 0 <= x < |p|
      ensures r[x] == PeerAfter(p, a, b, x)
    {
      SetPeerAt(p, a, b, x);
    }
    forall x | 0 <= x < |p|
      ensures Mutual(r, x)
    {
      assert Mutual(p, x);
      assert r[x] == PeerAfter(p, a, b, x);
      if r[x].Some? {
        assert r[r[x].value] == PeerAfter(p, a, b, r[x].value);
      }
    }
  }

  // ----- interfaces, namespaces and the whole graph

  ghost predicate AllBelow(ids: seq<nat>, n: nat) {
    forall k :: 0 <= k < |ids| ==> ids[k] < n
  }

  datatype Address = Address(family: int, raw: seq<int>)

  /** What a scan leaves in an interface entry and no later pass changes. `local` is the local address
      the driver of a kernel tunnel reported. */
  datatype Info = Info(
    ns: nat, name: string, internalNs: Option<string>, internal: bool, up: bool,
    driver: Option<string>, addrs: seq<Address>, ifIndex: nat,
    masterIndex: nat, linkIndex: nat, linkNetnsid: int, peerIndex: nat, peerNetnsid: int,
    local: Option<Address>)

  /** What passes change besides the three pointers. */
  datatype Marks = Marks(linkNet: Option<nat>, subDriver: Option<string>, weakLink: bool, warnings: nat)

  datatype NsId = NsId(id: int, ns: nat)

  /** `name` is absent for the root namespace; `warnings` counts the labels added to it. */
  datatype Space = Space(name: Option<string>, ifaces: seq<nat>, ids: seq<NsId>, warnings: nat)

  datatype Graph = Graph(
    info: seq<Info>, master: Rel, link: Rel, peer: seq<Option<nat>>, marks: seq<Marks>, spaces: seq<Space>)

  ghost predicate Placed(g: Graph) {
    && (forall i :: 0 <= i < |g.info| ==>
          g.info[i].ns < |g.spaces| && i in g.spaces[g.info[i].ns].ifaces)
    && (forall j, i {:trigger i in g.spaces[j].ifaces} :: 0 <= j < |g.spaces| && i in g.spaces[j].ifaces ==>
      i < |g.info| && g.info[i].ns == j)
    && (forall j :: 0 <= j < |g.spaces| ==> NoDup(g.spaces[j].ifaces))
    && (forall j, k :: 0 <= j < |g.spaces| && 0 <= k < |g.spaces[j].ids| ==> g.spaces[j].ids[k].ns < |g.spaces|)
  }

  ghost predicate WF(g: Graph) {
    && |g.master.up| == |g.link.up| == |g.peer| == |g.marks| == |g.info|
    && Mirror(g.master) && Mirror(g.link) && Involution(g.peer) && InRange(g.peer)
    && Placed(g)
    && (forall i :: 0 <= i < |g.info| && g.marks[i].linkNet.Some? ==> g.marks[i].linkNet.value < |g.spaces|)
  }

  predicate Id(g: Graph, t: Option<nat>) {
    t.Some? ==> t.value < |g.info|
  }

  ghost function SetMaster(g: Graph, t: Option<nat>, x: nat): (h: Graph)
    requires WF(g) && x < |g.info| && Id(g, t)
    ensures WF(h)
  {
    SetUpKeepsMirror(g.master, t, x);
    g.(master := SetUp(g.master, t, x))
  }

  ghost function SetLink(g: Graph, t: Option<nat>, x: nat): (h: Graph)
    requires WF(g) && x < |g.info| && Id(g, t)
    ensures WF(h)
  {
    SetUpKeepsMirror(g.link, t, x);
    g.(link := SetUp(g.link, t, x))
  }

  ghost function Pair(g: Graph, a: Option<nat>, b: Option<nat>): (h: Graph)
    requires WF(g) && Id(g, a) && Id(g, b)
    ensures WF(h)
  {
    SetPeerEffect(g.peer, a, b);
    g.(peer := SetPeer(g.peer, a, b))
  }

  ghost function SetMarks(g: Graph, x: nat, m: Marks): (h: Graph)
    requires WF(g) && x < |g.info|
    requires m.linkNet.Some? ==> m.linkNet.value < |g.spaces|
    ensures WF(h)
  {
    g.(marks := g.marks[x := m])
  }

  /** A warning added to a namespace. */
  ghost function WarnSpace(g: Graph, j: nat): (h: Graph)
    requires WF(g) && j < |g.spaces|
    ensures WF(h)
  {
    g.(spaces := g.spaces[j := g.spaces[j].(warnings := g.spaces[j].warnings + 1)])
  }

  /** if_add_warning: one more warning on the interface and one label in its namespace. */
  ghost function Warn(g: Graph, x: nat): (h: Graph)
    requires WF(g) && x < |g.info|
    ensures WF(h)
  {
    WarnSpace(SetMarks(g, x, g.marks[x].(warnings := g.marks[x].warnings + 1)), g.info[x].ns)
  }

  /** One warning more on the interface and on its namespace, and nothing else. */
  lemma WarnEffect(g: Graph, x: nat)
    requires WF(g) && x < |g.info|
    ensures var h := Warn(g, x); var j := g.info[x].ns;
      && h == g.(marks := h.marks, spaces := h.spaces) && |h.marks| == |g.marks| && |h.spaces| == |g.spaces|
      && x < |g.marks| && h.marks[x] == g.marks[x].(warnings := g.marks[x].warnings + 1)
      && (forall y :: 0 <= y < |g.marks| && y != x ==> h.marks[y] == g.marks[y])
      && j < |g.spaces| && h.spaces[j] == g.spaces[j].(warnings := g.spaces[j].warnings + 1)
      && (forall k :: 0 <= k < |g.spaces| && k != j ==> h.spaces[k] == g.spaces[k])
  {
  }

  const FRESH_MARKS := Marks(None, None, false, 0)

  /** A new interface at the end of its namespace's list, related to nobody. */
  ghost function GrowIface(g: Graph, i: Info): (h: Graph)
    requires WF(g) && i.ns < |g.spaces|
    ensures WF(h)
  {
    var n := |g.info|;
    var s := g.spaces[i.ns];
    var h := Graph(
      g.info + [i],
      Rel(g.master.up + [None], g.master.down + [[]]),
      Rel(g.link.up + [None], g.link.down + [[]]),
      g.peer + [None],
      g.marks + [FRESH_MARKS],
      g.spaces[i.ns := s.(ifaces := s.ifaces + [n])]);
    assert Involution(h.peer) by {
      forall x | 0 <= x < |h.peer| ensures Mutual(h.peer, x) {
        assert x < n ==> Mutual(g.peer, x);
      }
    }
    NoDupAppend(s.ifaces, n);
    h
  }

  ghost function GrowSpace(g: Graph, name: Option<string>): (h: Graph)
    requires WF(g)
    ensures WF(h)
  {
    g.(spaces := g.spaces + [Space(name, [], [], 0)])
  }

  ghost function GrowIds(g: Graph, j: nat, id: NsId): (h: Graph)
    requires WF(g) && j < |g.spaces| && id.ns < |g.spaces|
    ensures WF(h)
  {
    g.(spaces := g.spaces[j := g.spaces[j].(ids := g.spaces[j].ids + [id])])
  }
}
