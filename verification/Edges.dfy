/** What the dot and JSON frontends make of the graph: the edges drawn, and the parents, children
    and peer of every interface, keyed by identifier. */
module Edges {
  import opened Common
  import opened Ident
  import opened Model
  import opened Search
  import opened Topology

  // ----- the dot edges

  /** An edge, by the entries it is drawn for. */
  datatype Edge =
    | MasterEdge(sub: nat, master: nat)
    | LinkEdge(sub: nat, link: nat)
    | NetEdge(sub: nat, ns: nat)
    | PeerEdge(sub: nat, peer: nat)

  ghost function MasterPart(g: Graph, x: nat): seq<Edge>
    requires WF(g) && x < |g.info|
  {
    match g.master.up[x]
    case None => []
    case Some(m) => [MasterEdge(x, m)]
  }

  ghost function LinkPart(g: Graph, x: nat): seq<Edge>
    requires WF(g) && x < |g.info|
  {
    match g.link.up[x]
    case Some(l) => [LinkEdge(x, l)]
    case None => match g.marks[x].linkNet case None => [] case Some(n) => [NetEdge(x, n)]
  }

  /** `addr` tells where entries are in memory. */
  ghost function PeerPart(g: Graph, x: nat, addr: seq<nat>): seq<Edge>
    requires WF(g) && x < |g.info| == |addr|
  {
    match g.peer[x]
    case None => []
    case Some(y) => if addr[x] > addr[y] then [PeerEdge(x, y)] else []
  }

  /** The edges output_ifaces_pass2 writes for entry `x`. */
  ghost function EdgesOf(g: Graph, x: nat, addr: seq<nat>): seq<Edge>
    requires WF(g) && x < |g.info| == |addr|
  {
    MasterPart(g, x) + LinkPart(g, x) + PeerPart(g, x, addr)
  }

  ghost function EdgesFor(g: Graph, ids: seq<nat>, addr: seq<nat>): seq<Edge>
    requires WF(g) && AllBelow(ids, |g.info|) && |addr| == |g.info|
  {
    if ids == [] then [] else EdgesFor(g, ids[..|ids| - 1], addr) + EdgesOf(g, ids[|ids| - 1], addr)
  }

  /** Every edge comes from its own entry, as often as that writes it. */
  lemma {:induction false} EdgesByOwner(g: Graph, ids: seq<nat>, addr: seq<nat>, e: Edge)
    requires WF(g) && AllBelow(ids, |g.info|) && |addr| == |g.info| && NoDup(ids)
    ensures multiset(EdgesFor(g, ids, addr))[e] ==
      if e.sub in ids then (if e.sub < |g.info| then multiset(EdgesOf(g, e.sub, addr))[e] else 0) else 0
  {
    hide WF;
    if ids != [] {
      var init, x := ids[..|ids| - 1], ids[|ids| - 1];
      assert ids == init + [x];
      EdgesByOwner(g, init, addr, e);
      OwnEdges(g, x, addr);
      assert x !in init;
      assert multiset(EdgesFor(g, ids, addr)) == multiset(EdgesFor(g, init, addr)) + multiset(EdgesOf(g, x, addr));
      if e.sub != x {
        assert e !in EdgesOf(g, x, addr);
      }
    }
  }

  lemma OwnEdges(g: Graph, x: nat, addr: seq<nat>)
    requires WF(g) && x < |g.info| == |addr|
    ensures forall e {:trigger e in EdgesOf(g, x, addr)} :: e in EdgesOf(g, x, addr) ==> e.sub == x
  {
  }

  ghost predicate Injective(addr: seq<nat>) {
    forall i, j :: 0 <= i < j < |addr| ==> addr[i] != addr[j]
  }

  /** Over the whole output: exactly one undirected edge for every two distinct peers, none for an
      entry that is its own peer, and exactly one edge for every master, link and remote namespace. */
  lemma DotEdges(g: Graph, addr: seq<nat>, x: nat, y: nat)
    requires WF(g) && |addr| == |g.info| && Injective(addr) && x < |g.info|
    ensures AllBelow(Order(g), |g.info|)
    ensures var es := multiset(EdgesFor(g, Order(g), addr));
      && es[PeerEdge(x, y)] + (if x == y then 0 else es[PeerEdge(y, x)]) ==
        (if x != y && g.peer[x] == Some(y) then 1 else 0)
      && es[MasterEdge(x, y)] == (if g.master.up[x] == Some(y) then 1 else 0)
      && es[LinkEdge(x, y)] == (if g.link.up[x] == Some(y) then 1 else 0)
      && es[NetEdge(x, y)] == (if g.link.up[x].None? && g.marks[x].linkNet == Some(y) then 1 else 0)
  {
    OrderMembers(g);
    EdgesByOwner(g, Order(g), addr, PeerEdge(x, y));
    EdgesByOwner(g, Order(g), addr, PeerEdge(y, x));
    EdgesByOwner(g, Order(g), addr, MasterEdge(x, y));
    EdgesByOwner(g, Order(g), addr, LinkEdge(x, y));
    EdgesByOwner(g, Order(g), addr, NetEdge(x, y));
    hide EdgesFor, Order, WF, EdgesOf;
    PeerSide(g, addr, x, y);
    PeerFacts(g, addr, x, y);
    OtherSides(g, addr, x, y);
    if y < |g.info| {
      PeerSide(g, addr, y, x);
    }
  }

  lemma PeerSide(g: Graph, addr: seq<nat>, x: nat, y: nat)
    requires WF(g) && |addr| == |g.info| && x < |g.info|
    ensures g.peer[x] == Some(y) ==> y < |addr|
    ensures multiset(EdgesOf(g, x, addr))[PeerEdge(x, y)] == if g.peer[x] == Some(y) && addr[x] > addr[y] then 1 else 0
  {
    assert Mutual(g.peer, x);
  }

  lemma PeerFacts(g: Graph, addr: seq<nat>, x: nat, y: nat)
    requires WF(g) && |addr| == |g.info| && Injective(addr) && x < |g.info|
    ensures |g.peer| == |g.info|
    ensures g.peer[x] == Some(y) ==> y < |g.info| && g.peer[y] == Some(x) && (x != y ==> addr[x] != addr[y])
    ensures y < |g.info| && g.peer[y] == Some(x) ==> g.peer[x] == Some(y)
  {
    assert Mutual(g.peer, x);
    if y < |g.info| {
      assert Mutual(g.peer, y);
    }
  }

  lemma Parts(g: Graph, x: nat, addr: seq<nat>, e: Edge)
    requires WF(g) && x < |g.info| == |addr|
    ensures multiset(EdgesOf(g, x, addr))[e] ==
      multiset(MasterPart(g, x))[e] + multiset(LinkPart(g, x))[e] + multiset(PeerPart(g, x, addr))[e]
  {
    hide WF, MasterPart, LinkPart, PeerPart;
  }

  lemma OtherSides(g: Graph, addr: seq<nat>, x: nat, y: nat)
    requires WF(g) && |addr| == |g.info| && x < |g.info|
    ensures |g.master.up| == |g.link.up| == |g.marks| == |g.info|
    ensures var es := multiset(EdgesOf(g, x, addr));
      && es[MasterEdge(x, y)] == (if g.master.up[x] == Some(y) then 1 else 0)
      && es[LinkEdge(x, y)] == (if g.link.up[x] == Some(y) then 1 else 0)
      && es[NetEdge(x, y)] == (if g.link.up[x].None? && g.marks[x].linkNet == Some(y) then 1 else 0)
  {
    hide EdgesOf, Mirror, Placed, Involution;
    Parts(g, x, addr, MasterEdge(x, y));
    Parts(g, x, addr, LinkEdge(x, y));
    Parts(g, x, addr, NetEdge(x, y));
  }

  // ----- writing the edges

  datatype Kind = Master | Link(weak: bool) | Net(cluster: string) | RootNet | Peer

  /** A line of output: an arrow between two nodes. */
  datatype Line = Line(tail: string, tip: string, kind: Kind)

  function IdOf(g: Graph, x: nat): string
    requires x < |g.info| && g.info[x].ns < |g.spaces|
  {
    IfId(g.spaces[g.info[x].ns].name, g.info[x].internalNs, g.info[x].name)
  }

  ghost predicate Drawable(g: Graph, e: Edge) {
    && WF(g) && e.sub < |g.info|
    && match e
       case MasterEdge(_, m) => m < |g.info|
       case LinkEdge(_, l) => l < |g.info|
       case NetEdge(_, n) => n < |g.spaces|
       case PeerEdge(_, p) => p < |g.info|
  }

  ghost function Draw(g: Graph, e: Edge): Line
    requires Drawable(g, e)
  {
    match e
    case MasterEdge(x, m) => Line(IdOf(g, x), IdOf(g, m), Master)
    case LinkEdge(x, l) => Line(IdOf(g, l), IdOf(g, x), Link(g.marks[x].weakLink))
    case NetEdge(x, n) =>
      (match g.spaces[n].name
       case None => Line(IdOf(g, x), "cluster//", RootNet)
       case Some(_) => Line(IdOf(g, x), Ident.NsId(g.spaces[n].name) + "/lo", Net(Ident.NsId(g.spaces[n].name))))
    case PeerEdge(x, p) => Line(IdOf(g, x), IdOf(g, p), Peer)
  }

  ghost predicate AllDrawable(g: Graph, es: seq<Edge>) {
    forall k :: 0 <= k < |es| ==> Drawable(g, es[k])
  }

  ghost function DrawAll(g: Graph, es: seq<Edge>): (ls: seq<Line>)
    requires AllDrawable(g, es)
    ensures |ls| == |es|
  {
    seq(|es|, k requires 0 <= k < |es| => Draw(g, es[k]))
  }

  lemma EdgesDrawable(g: Graph, x: nat, addr: seq<nat>)
    requires WF(g) && x < |g.info| == |addr|
    ensures AllDrawable(g, EdgesOf(g, x, addr))
  {
    assert Mutual(g.peer, x);
  }

  lemma {:induction false} AllEdgesDrawable(g: Graph, ids: seq<nat>, addr: seq<nat>)
    requires WF(g) && AllBelow(ids, |g.info|) && |addr| == |g.info|
    ensures AllDrawable(g, EdgesFor(g, ids, addr))
  {
    hide WF, EdgesOf, Drawable;
    if ids != [] {
      AllEdgesDrawable(g, ids[..|ids| - 1], addr);
      EdgesDrawable(g, ids[|ids| - 1], addr);
    }
  }

  // ----- when identifiers identify

  ghost predicate NameFits(g: Graph, x: nat)
    requires x < |g.info|
  {
    g.info[x].ns < |g.spaces| && Fits(g.spaces[g.info[x].ns].name, g.info[x].internalNs, g.info[x].name)
  }

  /** Names fit the identifiers' buffers, namespaces have different names, and interfaces of one
      namespace differ in name or internal namespace. */
  ghost predicate Identifiable(g: Graph) {
    && (forall x :: 0 <= x < |g.info| ==> NameFits(g, x))
    && (forall j, k :: 0 <= j < k < |g.spaces| ==> g.spaces[j].name != g.spaces[k].name)
    && (forall x, y :: 0 <= x < y < |g.info| && g.info[x].ns == g.info[y].ns ==>
          g.info[x].name != g.info[y].name || Text(g.info[x].internalNs) != Text(g.info[y].internalNs))
  }

  lemma IdsApart(g: Graph, x: nat, y: nat)
    requires Identifiable(g) && x < |g.info| && y < |g.info|
    ensures g.info[x].ns < |g.spaces| && g.info[y].ns < |g.spaces|
    ensures IdOf(g, x) == IdOf(g, y) <==> x == y
  {
    assert NameFits(g, x) && NameFits(g, y);
    var a, b := g.info[x], g.info[y];
    IfIdInjective(g.spaces[a.ns].name, a.internalNs, a.name, g.spaces[b.ns].name, b.internalNs, b.name);
    if IdOf(g, x) == IdOf(g, y) {
      assert a.ns == b.ns;
      assert !(x < y) && !(y < x);
    }
  }

  // ----- the lines of the whole output

  /** Between two entries there are exactly the lines of their relations: an arrow from an entry to its
      master, one from what it links to, with its weak mark, to it, and one without direction for peers. */
  ghost predicate PairDrawn(g: Graph, ls: seq<Line>, x: nat, y: nat)
    requires WF(g) && x < |g.info| && y < |g.info|
  {
    var n := multiset(ls);
    var a, b := IdOf(g, x), IdOf(g, y);
    && n[Line(a, b, Master)] == (if g.master.up[x] == Some(y) then 1 else 0)
    && n[Line(b, a, Link(g.marks[x].weakLink))] == (if g.link.up[x] == Some(y) then 1 else 0)
    && n[Line(b, a, Link(!g.marks[x].weakLink))] == 0
    && n[Line(a, b, Peer)] + (if x == y then 0 else n[Line(b, a, Peer)]) ==
         (if x != y && g.peer[x] == Some(y) then 1 else 0)
  }

  /** The line to the namespace an entry without a link points to. */
  ghost function NetLine(g: Graph, x: nat): Option<Line>
    requires WF(g) && x < |g.info|
  {
    if g.link.up[x].Some? || g.marks[x].linkNet.None? then None
    else
      match g.spaces[g.marks[x].linkNet.value].name
      case None => Some(Line(IdOf(g, x), "cluster//", RootNet))
      case Some(s) => Some(Line(IdOf(g, x), Ident.NsId(Some(s)) + "/lo", Net(Ident.NsId(Some(s)))))
  }

  predicate ToNet(l: Line) {
    l.kind.Net? || l.kind.RootNet?
  }

  /** That line is there once, and the entry has no other line to a namespace. */
  ghost predicate NetDrawn(g: Graph, ls: seq<Line>, x: nat)
    requires WF(g) && x < |g.info|
  {
    && (forall l {:trigger l in ls} :: l in ls && ToNet(l) && l.tail == IdOf(g, x) ==> NetLine(g, x) == Some(l))
    && (NetLine(g, x).Some? ==> multiset(ls)[NetLine(g, x).value] == 1)
  }

  /** A line starts at entry `x` and, unless it leads to a namespace, ends at entry `y`. */
  ghost predicate Joins(g: Graph, l: Line, x: nat, y: nat)
    requires WF(g)
  {
    x < |g.info| && y < |g.info| && l.tail == IdOf(g, x) && (ToNet(l) || l.tip == IdOf(g, y))
  }

  ghost predicate IsLine(g: Graph, l: Line)
    requires WF(g)
  {
    exists x: nat, y: nat :: Joins(g, l, x, y)
  }

  ghost predicate DrawnRight(g: Graph, ls: seq<Line>)
    requires WF(g)
  {
    && (forall x: nat, y: nat :: x < |g.info| && y < |g.info| ==> PairDrawn(g, ls, x, y))
    && (forall x: nat :: x < |g.info| ==> NetDrawn(g, ls, x))
    && (forall k :: 0 <= k < |ls| ==> IsLine(g, ls[k]))
  }

  lemma {:induction false} CountDrawn(g: Graph, es: seq<Edge>, l: Line, e: Option<Edge>)
    requires AllDrawable(g, es)
    requires forall k :: 0 <= k < |es| ==> (Draw(g, es[k]) == l <==> e == Some(es[k]))
    ensures multiset(DrawAll(g, es))[l] == if e.Some? then multiset(es)[e.value] else 0
  {
    hide Draw, Drawable;
    if es != [] {
      var init, f := es[..|es| - 1], es[|es| - 1];
      assert es == init + [f];
      CountDrawn(g, init, l, e);
      assert DrawAll(g, es) == DrawAll(g, init) + [Draw(g, f)];
    }
  }

  /** Different edges give different lines, as far as they are not to a namespace. */
  lemma SameDrawn(g: Graph, e: Edge, f: Edge)
    requires Identifiable(g) && Drawable(g, e) && Drawable(g, f) && Draw(g, e) == Draw(g, f)
    ensures e.sub == f.sub && (e.NetEdge? <==> f.NetEdge?) && (!e.NetEdge? ==> e == f)
  {
    hide IfId, Ident.NsId, Mirror, Involution, Identifiable;
    IdsApart(g, e.sub, f.sub);
    match (e, f)
    case (MasterEdge(_, m), MasterEdge(_, n)) => IdsApart(g, m, n);
    case (LinkEdge(x, l), LinkEdge(y, m)) => IdsApart(g, l, m);
    case (PeerEdge(_, p), PeerEdge(_, q)) => IdsApart(g, p, q);
    case (NetEdge(_, _), NetEdge(_, _)) =>
    case (_, _) =>
  }

  lemma CountEdge(g: Graph, es: seq<Edge>, e: Edge)
    requires Identifiable(g) && AllDrawable(g, es) && Drawable(g, e) && !e.NetEdge?
    ensures multiset(DrawAll(g, es))[Draw(g, e)] == multiset(es)[e]
  {
    hide Draw, Identifiable;
    forall k | 0 <= k < |es| ensures Draw(g, es[k]) == Draw(g, e) <==> Some(e) == Some(es[k]) {
      assert Drawable(g, es[k]);
      if Draw(g, es[k]) == Draw(g, e) {
        SameDrawn(g, es[k], e);
      }
    }
    hide Drawable;
    CountDrawn(g, es, Draw(g, e), Some(e));
  }

  /** A link is drawn with its own weak mark. */
  lemma WrongMark(g: Graph, es: seq<Edge>, x: nat, y: nat)
    requires Identifiable(g) && WF(g) && AllDrawable(g, es) && x < |g.info| && y < |g.info|
    ensures multiset(DrawAll(g, es))[Line(IdOf(g, y), IdOf(g, x), Link(!g.marks[x].weakLink))] == 0
  {
    hide IfId, Ident.NsId, Mirror, Involution, Identifiable;
    var l := Line(IdOf(g, y), IdOf(g, x), Link(!g.marks[x].weakLink));
    forall k | 0 <= k < |es| ensures Draw(g, es[k]) != l {
      assert Drawable(g, es[k]);
      if es[k].LinkEdge? {
        IdsApart(g, es[k].sub, x);
      }
    }
    CountDrawn(g, es, l, None);
  }

  lemma PairLines(g: Graph, addr: seq<nat>, es: seq<Edge>, x: nat, y: nat)
    requires WF(g) && Identifiable(g) && |addr| == |g.info| && Injective(addr) && x < |g.info| && y < |g.info|
    requires AllBelow(Order(g), |g.info|) && es == EdgesFor(g, Order(g), addr) && AllDrawable(g, es)
    ensures PairDrawn(g, DrawAll(g, es), x, y)
  {
    hide EdgesFor, Order, Identifiable, AllDrawable, Injective, Mirror, Involution, IfId;
    DotEdges(g, addr, x, y);
    CountEdge(g, es, MasterEdge(x, y));
    CountEdge(g, es, LinkEdge(x, y));
    CountEdge(g, es, PeerEdge(x, y));
    CountEdge(g, es, PeerEdge(y, x));
    WrongMark(g, es, x, y);
  }

  lemma NetEdgeIs(g: Graph, addr: seq<nat>, e: Edge)
    requires WF(g) && |addr| == |g.info| && Injective(addr) && e.NetEdge? && e.sub < |g.info|
    requires AllBelow(Order(g), |g.info|) && e in EdgesFor(g, Order(g), addr)
    ensures g.link.up[e.sub].None? && g.marks[e.sub].linkNet == Some(e.ns)
  {
    hide EdgesFor, Order, Injective;
    DotEdges(g, addr, e.sub, e.ns);
    assert e in multiset(EdgesFor(g, Order(g), addr));
  }

  lemma NetLines(g: Graph, addr: seq<nat>, es: seq<Edge>, x: nat)
    requires WF(g) && Identifiable(g) && |addr| == |g.info| && Injective(addr) && x < |g.info|
    requires AllBelow(Order(g), |g.info|) && es == EdgesFor(g, Order(g), addr) && AllDrawable(g, es)
    ensures NetDrawn(g, DrawAll(g, es), x)
  {
    hide EdgesFor, Order, Identifiable, Injective, Mirror, Involution, IfId, Ident.NsId;
    var ls := DrawAll(g, es);
    forall k | 0 <= k < |es| && es[k].NetEdge? && es[k].sub == x ensures NetLine(g, x) == Some(Draw(g, es[k])) {
      assert Drawable(g, es[k]);
      NetEdgeIs(g, addr, es[k]);
    }
    forall l {:trigger l in ls} | l in ls && ToNet(l) && l.tail == IdOf(g, x) ensures NetLine(g, x) == Some(l) {
      var k :| 0 <= k < |ls| && ls[k] == l;
      assert Drawable(g, es[k]);
      IdsApart(g, es[k].sub, x);
    }
    if NetLine(g, x).Some? {
      var e := NetEdge(x, g.marks[x].linkNet.value);
      DotEdges(g, addr, x, e.ns);
      forall k | 0 <= k < |es| ensures Draw(g, es[k]) == NetLine(g, x).value <==> Some(e) == Some(es[k]) {
        assert Drawable(g, es[k]);
        if Draw(g, es[k]) == NetLine(g, x).value {
          IdsApart(g, es[k].sub, x);
          NetEdgeIs(g, addr, es[k]);
        }
      }
      CountDrawn(g, es, NetLine(g, x).value, Some(e));
    }
  }

  /** The lines of the whole output, for entries that identifiers tell apart: per pair of entries exactly the
      arrows of their relations in the right direction, per pointer to a namespace its one line, and
      nothing else. */
  lemma DotLines(g: Graph, addr: seq<nat>)
    requires WF(g) && Identifiable(g) && |addr| == |g.info| && Injective(addr)
    ensures AllBelow(Order(g), |g.info|)
    ensures var es := EdgesFor(g, Order(g), addr); AllDrawable(g, es) && DrawnRight(g, DrawAll(g, es))
  {
    hide EdgesFor, Order, Identifiable, Injective, PairDrawn, NetDrawn, WF;
    OrderMembers(g);
    AllEdgesDrawable(g, Order(g), addr);
    var es := EdgesFor(g, Order(g), addr);
    forall x: nat, y: nat | x < |g.info| && y < |g.info| ensures PairDrawn(g, DrawAll(g, es), x, y) {
      PairLines(g, addr, es, x, y);
    }
    forall x: nat | x < |g.info| ensures NetDrawn(g, DrawAll(g, es), x) {
      NetLines(g, addr, es, x);
    }
    var ls := DrawAll(g, es);
    forall k | 0 <= k < |ls| ensures IsLine(g, ls[k]) {
      assert Drawable(g, es[k]) && ls[k] == Draw(g, es[k]);
      LineJoins(g, es[k]);
    }
  }

  lemma LineJoins(g: Graph, e: Edge)
    requires Drawable(g, e)
    ensures IsLine(g, Draw(g, e))
  {
    match e
    case MasterEdge(x, m) => assert Joins(g, Draw(g, e), x, m);
    case LinkEdge(x, l) => assert Joins(g, Draw(g, e), l, x);
    case NetEdge(x, _) => assert Joins(g, Draw(g, e), x, x);
    case PeerEdge(x, p) => assert Joins(g, Draw(g, e), x, p);
  }

  ghost function Places(t: Topology, addr: IfEntry -> nat): (a: seq<nat>)
    reads t
    ensures |a| == |t.table|
  {
    seq(|t.table|, i requires 0 <= i < |t.table| reads t => addr(t.table[i]))
  }

  /** ifid */
  function EntryId(e: IfEntry): string {
    IfId(e.ns.name, e.info.internalNs, e.info.name)
  }

  lemma EntryIdIs(t: Topology, e: IfEntry)
    requires t.Valid() && t.Has(e)
    ensures WF(t.model) && e.id < |t.model.info| == |t.table|
    ensures t.model.info[e.id].ns < |t.model.spaces| && EntryId(e) == IdOf(t.model, e.id)
  {
    t.View(e);
  }

  method WriteMaster(t: Topology, e: IfEntry) returns (ls: seq<Line>)
    requires t.Valid() && t.Has(e)
    ensures WF(t.model) && e.id < |t.model.info|
    ensures AllDrawable(t.model, MasterPart(t.model, e.id)) && ls == DrawAll(t.model, MasterPart(t.model, e.id))
  {
    hide Topology.Valid, WF, IdOf, IfId;
    t.View(e);
    EntryIdIs(t, e);
    if e.master == null {
      return [];
    }
    EntryIdIs(t, e.master);
    return [Line(EntryId(e), EntryId(e.master), Master)];
  }

  lemma NetView(t: Topology, e: IfEntry)
    requires t.Valid() && t.Has(e)
    ensures e.id < |t.model.marks| && t.model.marks[e.id].weakLink == e.weakLink
    ensures NsRef(e.linkNet) == t.model.marks[e.id].linkNet
    ensures e.linkNet != null ==> t.HasNs(e.linkNet) && e.linkNet.id < |t.model.spaces|
    ensures e.linkNet != null ==> e.linkNet.name == t.model.spaces[e.linkNet.id].name
  {
    t.MarkFacts(e);
    Numbers(t.table, t.spaces, t.model);
    if e.linkNet != null {
      assert SpaceShape(t.spaces, t.model.spaces, e.linkNet.id);
    }
  }

  method WriteLink(t: Topology, e: IfEntry) returns (ls: seq<Line>)
    requires t.Valid() && t.Has(e)
    ensures WF(t.model) && e.id < |t.model.info|
    ensures AllDrawable(t.model, LinkPart(t.model, e.id)) && ls == DrawAll(t.model, LinkPart(t.model, e.id))
  {
    hide Topology.Valid, WF, IdOf, IfId, Ident.NsId;
    t.View(e);
    EntryIdIs(t, e);
    NetView(t, e);
    if e.link != null {
      EntryIdIs(t, e.link);
      return [Line(EntryId(e.link), EntryId(e), Link(e.weakLink))];
    }
    if e.linkNet == null {
      return [];
    }
    if e.linkNet.name.Some? {
      return [Line(EntryId(e), Ident.NsId(e.linkNet.name) + "/lo", Net(Ident.NsId(e.linkNet.name)))];
    }
    return [Line(EntryId(e), "cluster//", RootNet)];
  }

  method WritePeer(t: Topology, e: IfEntry, addr: IfEntry -> nat) returns (ls: seq<Line>)
    requires t.Valid() && t.Has(e)
    ensures WF(t.model) && e.id < |t.model.info| == |t.table|
    ensures var es := PeerPart(t.model, e.id, Places(t, addr)); AllDrawable(t.model, es) && ls == DrawAll(t.model, es)
  {
    hide Topology.Valid, WF, IdOf, IfId;
    t.View(e);
    EntryIdIs(t, e);
    if e.peer != null && addr(e) > addr(e.peer) {
      EntryIdIs(t, e.peer);
      return [Line(EntryId(e), EntryId(e.peer), Peer)];
    }
    return [];
  }

  /** The body of output_ifaces_pass2's loop. */
  method WriteEntry(t: Topology, e: IfEntry, addr: IfEntry -> nat) returns (ls: seq<Line>)
    requires t.Valid() && t.Has(e)
    ensures WF(t.model) && e.id < |t.model.info| == |t.table|
    ensures AllDrawable(t.model, EdgesOf(t.model, e.id, Places(t, addr)))
    ensures ls == DrawAll(t.model, EdgesOf(t.model, e.id, Places(t, addr)))
  {
    hide Topology.Valid, WF, DrawAll, AllDrawable, MasterPart, LinkPart, PeerPart;
    var masters := WriteMaster(t, e);
    var links := WriteLink(t, e);
    var peers := WritePeer(t, e, addr);
    ls := masters + links + peers;
    ghost var g := t.model;
    DrawConcat(g, MasterPart(g, e.id), LinkPart(g, e.id));
    DrawConcat(g, MasterPart(g, e.id) + LinkPart(g, e.id), PeerPart(g, e.id, Places(t, addr)));
  }

  lemma DrawConcat(g: Graph, a: seq<Edge>, b: seq<Edge>)
    requires AllDrawable(g, a) && AllDrawable(g, b)
    ensures AllDrawable(g, a + b) && DrawAll(g, a + b) == DrawAll(g, a) + DrawAll(g, b)
  {
  }

  lemma {:induction false} EdgesConcat(g: Graph, a: seq<nat>, b: seq<nat>, addr: seq<nat>)
    requires WF(g) && AllBelow(a, |g.info|) && AllBelow(b, |g.info|) && |addr| == |g.info|
    ensures AllBelow(a + b, |g.info|)
    ensures EdgesFor(g, a + b, addr) == EdgesFor(g, a, addr) + EdgesFor(g, b, addr)
  {
    hide WF, EdgesOf;
    if b == [] {
      assert a + b == a;
    } else {
      var init := b[..|b| - 1];
      EdgesConcat(g, a, init, addr);
      assert (a + b)[..|a + b| - 1] == a + init;
    }
  }

  /** output_ifaces_pass2 */
  method WriteNs(t: Topology, ns: NetnsEntry, addr: IfEntry -> nat) returns (ls: seq<Line>)
    requires t.Valid() && t.HasNs(ns)
    ensures WF(t.model) && ns.id < |t.model.spaces| && |t.table| == |t.model.info|
    ensures AllBelow(t.model.spaces[ns.id].ifaces, |t.model.info|)
    ensures var es := EdgesFor(t.model, t.model.spaces[ns.id].ifaces, Places(t, addr));
      AllDrawable(t.model, es) && ls == DrawAll(t.model, es)
  {
    hide Topology.Valid, WF, EdgesOf, DrawAll, AllDrawable;
    ghost var g := t.model;
    t.Walk(ns, 0);
    SpaceBelow(g, ns.id);
    ghost var ids := g.spaces[ns.id].ifaces;
    ls := [];
    var n := ns.ifaces.head.next;
    ghost var k := 0;
    NothingDrawn(g, ids, Places(t, addr));
    while n.next != null
      invariant t.Stands(ns, k, n) && t.model == g
      invariant AllDrawable(g, EdgesFor(g, ids[..k], Places(t, addr)))
      invariant ls == DrawAll(g, EdgesFor(g, ids[..k], Places(t, addr)))
      decreases |ids| - k
    {
      var entry := t.table[n.holder];
      n := n.next;
      var more := WriteEntry(t, entry, addr);
      assert ids[..k + 1][..k] == ids[..k];
      DrawConcat(g, EdgesFor(g, ids[..k], Places(t, addr)), EdgesOf(g, ids[k], Places(t, addr)));
      ls := ls + more;
      k := k + 1;
      t.Walk(ns, k);
    }
    assert ids[..k] == ids;
  }

  lemma NothingDrawn(g: Graph, ids: seq<nat>, addr: seq<nat>)
    requires WF(g) && |addr| == |g.info|
    ensures AllBelow(ids[..0], |g.info|)
    ensures AllDrawable(g, EdgesFor(g, ids[..0], addr)) && DrawAll(g, EdgesFor(g, ids[..0], addr)) == []
  {
  }

  /** The edge part of dot_output. */
  method DotOutput(t: Topology, addr: IfEntry -> nat) returns (ls: seq<Line>)
    requires t.Valid()
    ensures WF(t.model) && |t.table| == |t.model.info|
    ensures AllBelow(Order(t.model), |t.model.info|)
    ensures var es := EdgesFor(t.model, Order(t.model), Places(t, addr));
      AllDrawable(t.model, es) && ls == DrawAll(t.model, es)
    ensures Identifiable(t.model) && Injective(Places(t, addr)) ==> DrawnRight(t.model, ls)
  {
    hide Topology.Valid, WF, EdgesFor, DrawAll, AllDrawable, DrawnRight, Identifiable, Injective;
    ghost var g := t.model;
    TopologyFacts(t);
    if Identifiable(g) && Injective(Places(t, addr)) {
      DotLines(g, Places(t, addr));
    }
    ls := [];
    t.WalkNs(0);
    var n := t.netnsList.head.next;
    ghost var j := 0;
    NothingDrawn(g, OrderTo(g, 0), Places(t, addr));
    assert OrderTo(g, 0)[..0] == OrderTo(g, 0);
    while n.next != null
      invariant t.StandsNs(j, n) && t.model == g
      invariant AllDrawable(g, EdgesFor(g, OrderTo(g, j), Places(t, addr)))
      invariant ls == DrawAll(g, EdgesFor(g, OrderTo(g, j), Places(t, addr)))
      decreases |t.spaces| - j
    {
      var ns := t.spaces[n.holder];
      n := n.next;
      var more := WriteNs(t, ns, addr);
      EdgesConcat(g, OrderTo(g, j), g.spaces[j].ifaces, Places(t, addr));
      DrawConcat(g, EdgesFor(g, OrderTo(g, j), Places(t, addr)), EdgesFor(g, g.spaces[j].ifaces, Places(t, addr)));
      ls := ls + more;
      j := j + 1;
      t.WalkNs(j);
    }
  }

  lemma TopologyFacts(t: Topology)
    requires t.Valid()
    ensures WF(t.model) && |t.table| == |t.model.info| && |t.spaces| == |t.model.spaces|
  {
    Numbers(t.table, t.spaces, t.model);
  }
}
