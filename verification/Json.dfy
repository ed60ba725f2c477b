/** frontends/json.c: the objects written for interfaces, keyed by identifier. */
module Json {
  import opened Common
  import opened Edges
  import opened Ident
  import opened IntrusiveList
  import opened Model
  import Search
  import opened Topology

  /** connection; edge labels are not part of the graph */
  datatype Conn = Conn(target: string)

  /** The part of an interface object that depends on the graph. Empty `parents` and `children`
      are not written. */
  datatype IfObj = IfObj(id: string, namespace: string, name: string, linkNetns: Option<string>, internal: bool,
    warning: bool,
                         parents: map<string, Conn>, children: map<string, Conn>, peer: Option<Conn>)

  /** An object with a connection per key, set one after the other. */
  function Keyed(keys: seq<string>): map<string, Conn> {
    if keys == [] then map[]
    else Keyed(keys[..|keys| - 1])[keys[|keys| - 1] := Conn(keys[|keys| - 1])]
  }

  lemma {:induction false} KeyedExact(keys: seq<string>)
    ensures forall k :: k in Keyed(keys) <==> k in keys
    ensures forall k {:trigger Keyed(keys)[k]} :: k in Keyed(keys) ==> Keyed(keys)[k] == Conn(k)
    ensures NoDup(keys) ==> |Keyed(keys)| == |keys|
  {
    if keys != [] {
      var init, k := keys[..|keys| - 1], keys[|keys| - 1];
      KeyedExact(init);
      assert keys == init + [k];
      if NoDup(keys) {
        assert k !in init;
        assert Keyed(keys).Keys == Keyed(init).Keys + {k};
        assert |Keyed(keys)| == |Keyed(keys).Keys| && |Keyed(init)| == |Keyed(init).Keys|;
      }
    }
  }

  ghost function Ids(g: Graph, xs: seq<nat>): (ks: seq<string>)
    requires WF(g) && AllBelow(xs, |g.info|)
    ensures |ks| == |xs| && forall i :: 0 <= i < |xs| ==> ks[i] == IdOf(g, xs[i])
  {
    seq(|xs|, i requires 0 <= i < |xs| => IdOf(g, xs[i]))
  }

  lemma DownBelow(g: Graph, r: Rel, x: nat)
    requires WF(g) && (r == g.master || r == g.link) && x < |g.info|
    ensures x < |r.down| && AllBelow(r.down[x], |g.info|) && NoDup(r.down[x])
    ensures forall i :: 0 <= i < |g.info| ==> (i in r.down[x] <==> r.up[i] == Some(x))
  {
    forall k | 0 <= k < |r.down[x]| ensures r.down[x][k] < |g.info| {
      assert r.down[x][k] in r.down[x];
    }
  }

  ghost function ParentsOf(g: Graph, x: nat): map<string, Conn>
    requires WF(g) && x < |g.info|
  {
    match g.master.up[x]
    case Some(m) => Keyed([IdOf(g, m)])
    case None => DownBelow(g, g.link, x); Keyed(Ids(g, g.link.down[x]))
  }

  ghost function ChildrenOf(g: Graph, x: nat): map<string, Conn>
    requires WF(g) && x < |g.info|
  {
    match g.link.up[x]
    case Some(l) => Keyed([IdOf(g, l)])
    case None => DownBelow(g, g.master, x); Keyed(Ids(g, g.master.down[x]))
  }

  ghost function PeerOf(g: Graph, x: nat): Option<Conn>
    requires WF(g) && x < |g.info|
  {
    match g.peer[x]
    case None => None
    case Some(y) => assert Mutual(g.peer, x); Some(Conn(IdOf(g, y)))
  }

  ghost function LinkNetOf(g: Graph, x: nat): Option<string>
    requires WF(g) && x < |g.info|
  {
    if g.info[x].linkIndex == 0 && g.marks[x].linkNet.Some?
      then Some(Ident.NsId(g.spaces[g.marks[x].linkNet.value].name)) else None
  }

  ghost function ObjOf(g: Graph, x: nat): IfObj
    requires WF(g) && x < |g.info|
  {
    IfObj(IdOf(g, x), Ident.NsId(g.spaces[g.info[x].ns].name), g.info[x].name, LinkNetOf(g, x), g.info[x].internal,
      g.marks[x].warnings > 0,
          ParentsOf(g, x), ChildrenOf(g, x), PeerOf(g, x))
  }

  /** interfaces_to_array */
  ghost function Interfaces(g: Graph, xs: seq<nat>): map<string, IfObj>
    requires WF(g) && AllBelow(xs, |g.info|)
  {
    if xs == [] then map[]
    else Interfaces(g, xs[..|xs| - 1])[IdOf(g, xs[|xs| - 1]) := ObjOf(g, xs[|xs| - 1])]
  }

  // ----- keys

  lemma KeyOfMember(g: Graph, xs: seq<nat>, i: nat)
    requires WF(g) && Identifiable(g) && AllBelow(xs, |g.info|) && i < |g.info|
    ensures g.info[i].ns < |g.spaces|
    ensures IdOf(g, i) in Ids(g, xs) <==> i in xs
  {
    var ks := Ids(g, xs);
    IdsApart(g, i, i);
    hide WF, Identifiable, IdOf;
    if i in xs {
      var k :| 0 <= k < |xs| && xs[k] == i;
      assert ks[k] == IdOf(g, i);
    }
    if IdOf(g, i) in ks {
      var k :| 0 <= k < |ks| && ks[k] == IdOf(g, i);
      IdsApart(g, i, xs[k]);
    }
  }

  lemma KeysDistinct(g: Graph, xs: seq<nat>)
    requires WF(g) && Identifiable(g) && AllBelow(xs, |g.info|) && NoDup(xs)
    ensures NoDup(Ids(g, xs))
  {
    hide WF, Identifiable, IdOf;
    forall i, j | 0 <= i < j < |xs| ensures Ids(g, xs)[i] != Ids(g, xs)[j] {
      IdsApart(g, xs[i], xs[j]);
    }
  }

  lemma NsBelow(g: Graph)
    requires WF(g)
    ensures forall i {:trigger g.info[i]} :: 0 <= i < |g.info| ==> g.info[i].ns < |g.spaces|
  {
  }

  /** The keys for a list of entries tell them apart: one connection per entry, nothing is
      overwritten, nothing is invented. */
  ghost predicate Exact(g: Graph, m: map<string, Conn>, xs: seq<nat>)
    requires WF(g)
  {
    && AllBelow(xs, |g.info|) && |m| == |xs|
    && (forall k {:trigger k in m} :: k in m ==> m[k] == Conn(k) && k in Ids(g, xs))
    && (forall i {:trigger g.info[i]} :: 0 <= i < |g.info| ==>
      g.info[i].ns < |g.spaces| && (IdOf(g, i) in m <==> i in xs))
  }

  lemma IdsExact(g: Graph, xs: seq<nat>)
    requires WF(g) && Identifiable(g) && AllBelow(xs, |g.info|) && NoDup(xs)
    ensures Exact(g, Keyed(Ids(g, xs)), xs)
  {
    hide WF, Identifiable, IdOf;
    NsBelow(g);
    KeysDistinct(g, xs);
    hide Keyed, Ids;
    var m := Keyed(Ids(g, xs));
    KeyedExact(Ids(g, xs));
    forall k {:trigger k in m} | k in m ensures m[k] == Conn(k) && k in Ids(g, xs) {
    }
    forall i {:trigger g.info[i]} | 0 <= i < |g.info|
      ensures g.info[i].ns < |g.spaces| && (IdOf(g, i) in m <==> i in xs) {
      KeyOfMember(g, xs, i);
    }
  }

  /** The parents of an interface without a master are exactly the interfaces linked to it; the
      only parent of one with a master is the master. */
  lemma ParentsExact(g: Graph, x: nat)
    requires WF(g) && Identifiable(g) && x < |g.info|
    ensures g.master.up[x].Some? ==> Exact(g, ParentsOf(g, x), [g.master.up[x].value])
    ensures g.master.up[x].None? ==> x < |g.link.down| && Exact(g, ParentsOf(g, x), g.link.down[x])
    ensures x < |g.link.down| && forall i :: 0 <= i < |g.info| ==> (i in g.link.down[x] <==> g.link.up[i] == Some(x))
  {
    DownBelow(g, g.link, x);
    if g.master.up[x].Some? {
      var m := g.master.up[x].value;
      IdsExact(g, [m]);
      assert Ids(g, [m]) == [IdOf(g, m)];
    } else {
      IdsExact(g, g.link.down[x]);
    }
  }

  /** The children of an interface without a link are exactly the interfaces it is master of; the
      only child of one with a link is what it links to. */
  lemma ChildrenExact(g: Graph, x: nat)
    requires WF(g) && Identifiable(g) && x < |g.info|
    ensures g.link.up[x].Some? ==> Exact(g, ChildrenOf(g, x), [g.link.up[x].value])
    ensures g.link.up[x].None? ==> x < |g.master.down| && Exact(g, ChildrenOf(g, x), g.master.down[x])
    ensures x < |g.master.down| && forall i :: 0 <= i < |g.info| ==>
      (i in g.master.down[x] <==> g.master.up[i] == Some(x))
  {
    DownBelow(g, g.master, x);
    if g.link.up[x].Some? {
      var l := g.link.up[x].value;
      IdsExact(g, [l]);
      assert Ids(g, [l]) == [IdOf(g, l)];
    } else {
      IdsExact(g, g.master.down[x]);
    }
  }

  /** A master relation shows at both ends exactly when the master has no link, or links back. */
  lemma ShownAtBothEnds(g: Graph, x: nat, m: nat)
    requires WF(g) && Identifiable(g) && x < |g.info| && g.master.up[x] == Some(m)
    ensures m < |g.info| && g.info[x].ns < |g.spaces| && g.info[m].ns < |g.spaces|
    ensures IdOf(g, m) in ParentsOf(g, x)
    ensures IdOf(g, x) in ChildrenOf(g, m) <==> g.link.up[m].None? || g.link.up[m] == Some(x)
  {
    ParentsExact(g, x);
    ChildrenExact(g, m);
    IdsApart(g, x, m);
    hide ParentsOf, ChildrenOf, IdOf, Identifiable, Mirror, Placed;
    assert m in [m];
    var e := g.info[m];
    var f := g.info[x];
  }

  /** What an interface's object says beside its parents and children: who it is, whose peer it is, the
      namespace it points to if it has no link index, and whether there was a warning about it. */
  lemma ObjectSays(g: Graph, x: nat)
    requires WF(g) && Identifiable(g) && x < |g.info|
    ensures forall i {:trigger g.info[i]} :: 0 <= i < |g.info| ==> g.info[i].ns < |g.spaces|
    ensures forall y: nat :: y < |g.info| ==>
      && (ObjOf(g, x).id == IdOf(g, y) <==> y == x)
      && (ObjOf(g, x).peer == Some(Conn(IdOf(g, y))) <==> g.peer[x] == Some(y))
    ensures ObjOf(g, x).peer == None <==> g.peer[x] == None
    ensures forall j: nat :: j < |g.spaces| && NsFits(g.spaces[j].name) ==>
      (ObjOf(g, x).namespace == Ident.NsId(g.spaces[j].name) <==> g.info[x].ns == j)
    ensures forall j: nat :: g.marks[x].linkNet == Some(j) && g.info[x].linkIndex == 0 ==>
      ObjOf(g, x).linkNetns == Some(Ident.NsId(g.spaces[j].name))
    ensures ObjOf(g, x).linkNetns == None <==> g.marks[x].linkNet == None || g.info[x].linkIndex != 0
    ensures ObjOf(g, x).name == g.info[x].name && ObjOf(g, x).internal == g.info[x].internal
    ensures ObjOf(g, x).warning <==> g.marks[x].warnings > 0
  {
    hide ParentsOf, ChildrenOf, IfId, Ident.NsId, Mirror;
    NsBelow(g);
    assert Mutual(g.peer, x) && NameFits(g, x);
    forall y: nat | y < |g.info|
      ensures (ObjOf(g, x).id == IdOf(g, y) <==> y == x)
      ensures (ObjOf(g, x).peer == Some(Conn(IdOf(g, y))) <==> g.peer[x] == Some(y))
    {
      IdsApart(g, x, y);
      if g.peer[x].Some? {
        IdsApart(g, g.peer[x].value, y);
      }
    }
    forall j: nat | j < |g.spaces| && NsFits(g.spaces[j].name)
      ensures ObjOf(g, x).namespace == Ident.NsId(g.spaces[j].name) <==> g.info[x].ns == j
    {
      var n := g.info[x].ns;
      NsIdInjective(g.spaces[n].name, g.spaces[j].name);
      assert n < j || j < n || n == j;
    }
  }

  /** One more interface adds its own object and overwrites none. */
  lemma InterfacesStep(g: Graph, init: seq<nat>, x: nat)
    requires WF(g) && Identifiable(g) && AllBelow(init, |g.info|) && x < |g.info| && x !in init
    requires forall k {:trigger k in Interfaces(g, init)} :: k in Interfaces(g, init) ==> k in Ids(g, init)
    ensures AllBelow(init + [x], |g.info|) && g.info[x].ns < |g.spaces|
    ensures var m := Interfaces(g, init); var n := Interfaces(g, init + [x]);
      && IdOf(g, x) !in m && n == m[IdOf(g, x) := ObjOf(g, x)] && |n| == |m| + 1
      && Ids(g, init + [x]) == Ids(g, init) + [IdOf(g, x)]
  {
    hide WF, Identifiable, IdOf, ObjOf;
    NsBelow(g);
    KeyOfMember(g, init, x);
    assert (init + [x])[..|init|] == init;
    var m, n := Interfaces(g, init), Interfaces(g, init + [x]);
    assert n.Keys == m.Keys + {IdOf(g, x)};
    assert |n| == |n.Keys| && |m| == |m.Keys|;
  }

  /** No interface of a namespace overwrites another. */
  lemma {:induction false} InterfacesExact(g: Graph, xs: seq<nat>)
    requires WF(g) && Identifiable(g) && AllBelow(xs, |g.info|) && NoDup(xs)
    ensures forall i {:trigger g.info[i]} :: 0 <= i < |g.info| ==> g.info[i].ns < |g.spaces|
    ensures var m := Interfaces(g, xs);
      && |m| == |xs|
      && (forall i {:trigger i in xs} :: i in xs ==> i < |g.info| && IdOf(g, i) in m && m[IdOf(g, i)] == ObjOf(g, i))
      && (forall k {:trigger k in m} :: k in m ==> k in Ids(g, xs))
  {
    hide WF, Identifiable, IdOf, ObjOf;
    NsBelow(g);
    if xs != [] {
      var init, x := xs[..|xs| - 1], xs[|xs| - 1];
      assert xs == init + [x] && x !in init;
      InterfacesExact(g, init);
      InterfacesStep(g, init, x);
      hide Interfaces, Ids;
      forall i {:trigger i in xs} | i in xs
        ensures i < |g.info| && IdOf(g, i) in Interfaces(g, xs) && Interfaces(g, xs)[IdOf(g, i)] == ObjOf(g, i)
      {
        if i != x {
          assert i in init;
          IdsApart(g, i, x);
        }
      }
    }
  }

  // ----- building the objects

  /** The loop over a reverse list of `e`. */
  method Connections(t: Topology, e: IfEntry, kind: nat, list: List) returns (m: map<string, Conn>)
    requires t.Valid() && t.Has(e) && (kind == REV_MASTER || kind == REV_LINK) && list == RevListOf(e, kind)
    ensures WF(t.model) && e.id < |RelOf(t.model, kind).down| &&
      AllBelow(RelOf(t.model, kind).down[e.id], |t.model.info|)
    ensures m == Keyed(Ids(t.model, RelOf(t.model, kind).down[e.id]))
  {
    hide Topology.Valid, WF, Ids, IdOf;
    ghost var g := t.model;
    t.WalkRev(e, kind, 0);
    DownRange(t, e, kind);
    ghost var ids := RelOf(g, kind).down[e.id];
    m := map[];
    var n := list.head.next;
    ghost var k := 0;
    NoIds(g, ids);
    while n.next != null
      invariant t.StandsRev(e, kind, k, n) && t.model == g
      invariant m == Keyed(Ids(g, ids[..k]))
      decreases |ids| - k
    {
      var link := t.table[n.holder];
      n := n.next;
      EntryIdIs(t, link);
      var jconn := Conn(EntryId(link));
      m := m[EntryId(link) := jconn];
      IdsSnoc(g, ids, k);
      k := k + 1;
      t.WalkRev(e, kind, k);
    }
    assert ids[..k] == ids;
  }

  lemma DownRange(t: Topology, e: IfEntry, kind: nat)
    requires t.Valid() && t.Has(e) && (kind == REV_MASTER || kind == REV_LINK)
    ensures WF(t.model) && e.id < |RelOf(t.model, kind).down| &&
      AllBelow(RelOf(t.model, kind).down[e.id], |t.model.info|)
  {
    EntryIdIs(t, e);
    DownBelow(t.model, RelOf(t.model, kind), e.id);
  }

  lemma NoIds(g: Graph, ids: seq<nat>)
    requires WF(g)
    ensures AllBelow(ids[..0], |g.info|) && Ids(g, ids[..0]) == []
  {
  }

  lemma IdsSnoc(g: Graph, ids: seq<nat>, k: nat)
    requires WF(g) && AllBelow(ids, |g.info|) && k < |ids|
    ensures g.info[ids[k]].ns < |g.spaces|
    ensures Ids(g, ids[..k + 1]) == Ids(g, ids[..k]) + [IdOf(g, ids[k])]
    ensures Keyed(Ids(g, ids[..k + 1])) == Keyed(Ids(g, ids[..k]))[IdOf(g, ids[k]) := Conn(IdOf(g, ids[k]))]
  {
    hide IdOf;
    var a := Ids(g, ids[..k]);
    assert Ids(g, ids[..k + 1]) == a + [IdOf(g, ids[k])];
    assert (a + [IdOf(g, ids[k])])[..|a|] == a;
  }

  lemma OneKey(k: string)
    ensures Keyed([k]) == map[k := Conn(k)]
  {
    assert [k][..0] == [];
  }

  method Parents(t: Topology, e: IfEntry) returns (m: map<string, Conn>)
    requires t.Valid() && t.Has(e)
    ensures WF(t.model) && e.id < |t.model.info| && m == ParentsOf(t.model, e.id)
  {
    hide Topology.Valid, WF, Ids, IdOf;
    t.View(e);
    EntryIdIs(t, e);
    if e.master != null {
      EntryIdIs(t, e.master);
      OneKey(EntryId(e.master));
      return map[EntryId(e.master) := Conn(EntryId(e.master))];
    }
    m := Connections(t, e, REV_LINK, e.revLink);
  }

  method Children(t: Topology, e: IfEntry) returns (m: map<string, Conn>)
    requires t.Valid() && t.Has(e)
    ensures WF(t.model) && e.id < |t.model.info| && m == ChildrenOf(t.model, e.id)
  {
    hide Topology.Valid, WF, Ids, IdOf;
    t.View(e);
    EntryIdIs(t, e);
    if e.link != null {
      EntryIdIs(t, e.link);
      OneKey(EntryId(e.link));
      return map[EntryId(e.link) := Conn(EntryId(e.link))];
    }
    m := Connections(t, e, REV_MASTER, e.revMaster);
  }

  lemma NsView(t: Topology, e: IfEntry)
    requires t.Valid() && t.Has(e)
    ensures e.id < |t.model.info| && e.info == t.model.info[e.id] && e.info.ns < |t.model.spaces|
    ensures e.ns.name == t.model.spaces[e.info.ns].name
    ensures e.id < |t.model.marks| && t.model.marks[e.id].warnings == e.warnings
  {
    t.View(e);
    t.MarkFacts(e);
  }

  /** The body of interfaces_to_array's loop. */
  method Describe(t: Topology, e: IfEntry) returns (o: IfObj)
    requires t.Valid() && t.Has(e)
    ensures WF(t.model) && e.id < |t.model.info| && o == ObjOf(t.model, e.id)
  {
    hide Topology.Valid, WF, ParentsOf, ChildrenOf, IdOf, Ident.NsId;
    NsView(t, e);
    NetView(t, e);
    EntryIdIs(t, e);
    t.View(e);
    var linkNetns := if e.info.linkIndex == 0 && e.linkNet != null then Some(Ident.NsId(e.linkNet.name)) else None;
    var parents := Parents(t, e);
    var children := Children(t, e);
    var peer := None;
    if e.peer != null {
      EntryIdIs(t, e.peer);
      peer := Some(Conn(EntryId(e.peer)));
    }
    o := IfObj(EntryId(e), Ident.NsId(e.ns.name), e.info.name, linkNetns, e.info.internal, e.warnings > 0, parents,
      children, peer);
  }

  /** interfaces_to_array */
  method InterfacesToArray(t: Topology, ns: NetnsEntry) returns (m: map<string, IfObj>)
    requires t.Valid() && t.HasNs(ns)
    ensures WF(t.model) && ns.id < |t.model.spaces| && AllBelow(t.model.spaces[ns.id].ifaces, |t.model.info|)
    ensures m == Interfaces(t.model, t.model.spaces[ns.id].ifaces)
  {
    hide Topology.Valid, WF, ObjOf, IdOf;
    ghost var g := t.model;
    t.Walk(ns, 0);
    Search.SpaceBelow(g, ns.id);
    ghost var ids := g.spaces[ns.id].ifaces;
    m := map[];
    var n := ns.ifaces.head.next;
    ghost var k := 0;
    assert ids[..0] == [];
    while n.next != null
      invariant t.Stands(ns, k, n) && t.model == g
      invariant m == Interfaces(g, ids[..k])
      decreases |ids| - k
    {
      var entry := t.table[n.holder];
      n := n.next;
      EntryIdIs(t, entry);
      var o := Describe(t, entry);
      m := m[EntryId(entry) := o];
      assert ids[..k + 1][..k] == ids[..k];
      k := k + 1;
      t.Walk(ns, k);
    }
    assert ids[..k] == ids;
  }
}
