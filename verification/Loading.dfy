/** if_list's entries on the graph: what the dumps and the driver handlers report about the interfaces of
    a namespace becomes its entries, related to nobody. The passes start from there. */
module Loading {
  import opened Bytes
  import opened Common
  import opened Exchange
  import opened IfAddrs
  import opened Model
  import opened NlMsg
  import opened Search
  import opened Topology
  import opened Veth

  /** What the driver handlers find out about an interface: the driver's name, a tunnel's local address and
      lower device (handlers/gre.c, ipxipy.c), the bridge sysfs names (handlers/bridge.c), and the peer
      index of a veth device (handlers/veth.c). */
  datatype Extra = Extra(driver: string, local: Option<Address>, lower: Option<nat>, bridge: nat, probed: nat)

  /** The characters of a name. */
  function Chars(b: seq<byte>): (s: string)
    ensures |s| == |b|
  {
    seq(|b|, i requires 0 <= i < |b| => b[i] as char)
  }

  function Addresses(xs: seq<IfAddr>): (r: seq<Address>)
    ensures |r| == |xs|
  {
    seq(|xs|, i requires 0 <= i < |xs| => Address(xs[i].addr.family, xs[i].addr.raw))
  }

  /** fill_if_link, the netlink and scan callbacks: the entry for a link message. */
  function InfoOf(ns: nat, l: Link, addrs: seq<IfAddr>, x: Extra): (i: Info)
    requires l.Link?
    ensures i.ns == ns && i.ifIndex == l.ifIndex && !i.internal
  {
    var i := Info(ns, Chars(l.name), None, false, l.up, Some(x.driver), Addresses(addrs), l.ifIndex,
                  if l.masterIndex != 0 then l.masterIndex else x.bridge,
                  if x.lower.Some? then x.lower.value else l.linkIndex, l.linkNetnsid, 0, -1, x.local);
    if x.driver == "veth" then Scanned(i, x.probed) else i
  }

  /** The entry says what was reported. The master is the link message's, else the bridge's from sysfs; a
      tunnel's lower device takes the place of the reported link. For a veth device that link, with its
      identifier, is the peer's and no link, and without one the peer is the probed one; no other entry
      gets a peer index. */
  lemma EntrySays(ns: nat, l: Link, addrs: seq<IfAddr>, x: Extra)
    requires l.Link?
    ensures var i := InfoOf(ns, l, addrs, x); var lower := if x.lower.Some? then x.lower.value else l.linkIndex;
      && i.ns == ns && i.ifIndex == l.ifIndex && i.up == l.up && i.driver == Some(x.driver) && i.local == x.local
      && !i.internal && i.internalNs == None
      && |i.name| == |l.name| && (forall k :: 0 <= k < |l.name| ==> i.name[k] as int == l.name[k] as int)
      && |i.addrs| == |addrs|
      && (forall k :: 0 <= k < |addrs| ==> i.addrs[k] == Address(addrs[k].addr.family, addrs[k].addr.raw))
      && (l.masterIndex != 0 ==> i.masterIndex == l.masterIndex)
      && (l.masterIndex == 0 ==> i.masterIndex == x.bridge)
      && (x.driver != "veth" ==>
            i.linkIndex == lower && i.linkNetnsid == l.linkNetnsid && i.peerIndex == 0 && i.peerNetnsid == -1)
      && (x.driver == "veth" && lower != 0 ==>
            i.peerIndex == lower && i.peerNetnsid == l.linkNetnsid && i.linkIndex == 0 && i.linkNetnsid == -1)
      && (x.driver == "veth" && lower == 0 ==>
            i.peerIndex == x.probed && i.peerNetnsid == -1 && i.linkIndex == 0 && i.linkNetnsid == l.linkNetnsid)
  {
  }

  /** Every link message of the dump is usable. */
  ghost predicate Usable(ls: seq<seq<byte>>) {
    forall k :: 0 <= k < |ls| ==> LinkFrom(ls[k]).Link?
  }

  /** The entries of a namespace, in the order of the link dump, each with its own addresses. */
  ghost function NsInfos(ns: nat, ls: seq<seq<byte>>, bs: seq<seq<byte>>, xs: seq<Extra>): (infos: seq<Info>)
    requires Usable(ls) && |xs| == |ls|
    ensures |infos| == |ls| && forall k :: 0 <= k < |ls| ==> infos[k].ns == ns
  {
    seq(|ls|, k requires 0 <= k < |ls| =>
      InfoOf(ns, LinkFrom(ls[k]), Holding(bs, LinkFrom(ls[k]).ifIndex), xs[k]))
  }

  /** Nobody is related to anybody. */
  ghost predicate Bare(g: Graph) {
    && (forall x :: 0 <= x < |g.master.up| ==> g.master.up[x] == None)
    && (forall x :: 0 <= x < |g.link.up| ==> g.link.up[x] == None)
    && (forall x :: 0 <= x < |g.peer| ==> g.peer[x] == None)
    && (forall x :: 0 <= x < |g.marks| ==> g.marks[x] == FRESH_MARKS)
  }

  ghost function LoadNs(g: Graph, ns: nat, infos: seq<Info>): (h: Graph)
    requires WF(g) && ns < |g.spaces| && forall k :: 0 <= k < |infos| ==> infos[k].ns == ns
    ensures WF(h) && |h.spaces| == |g.spaces|
  {
    if infos == [] then g else GrowIface(LoadNs(g, ns, infos[..|infos| - 1]), infos[|infos| - 1])
  }

  /** Exactly these entries are added, at the end and in order, to that namespace alone, and without
      relations. */
  lemma {:induction false} LoadedExactly(g: Graph, ns: nat, infos: seq<Info>)
    requires WF(g) && ns < |g.spaces| && forall k :: 0 <= k < |infos| ==> infos[k].ns == ns
    ensures var h := LoadNs(g, ns, infos);
      && h.info == g.info + infos
      && h.spaces[ns].ifaces == g.spaces[ns].ifaces + Numbers(|g.info|, |infos|)
      && (forall j :: 0 <= j < |g.spaces| && j != ns ==> h.spaces[j] == g.spaces[j])
      && (Bare(g) ==> Bare(h))
  {
    hide WF, GrowIface, Bare;
    if infos == [] {
      assert g.info + infos == g.info && g.spaces[ns].ifaces + Numbers(|g.info|, 0) == g.spaces[ns].ifaces;
    } else {
      var n := |infos| - 1;
      LoadedExactly(g, ns, infos[..n]);
      var h := LoadNs(g, ns, infos[..n]);
      GrownByOne(h, infos[n]);
      assert g.info + infos == g.info + infos[..n] + [infos[n]];
      assert Numbers(|g.info|, n + 1) == Numbers(|g.info|, n) + [|h.info|];
    }
  }

  function Numbers(from: nat, n: nat): (s: seq<nat>)
    ensures |s| == n && forall k :: 0 <= k < n ==> s[k] == from + k
  {
    if n == 0 then [] else Numbers(from, n - 1) + [from + n - 1]
  }

  lemma GrownByOne(g: Graph, i: Info)
    requires WF(g) && i.ns < |g.spaces|
    ensures var h := GrowIface(g, i);
      && h.info == g.info + [i] && h.spaces[i.ns].ifaces == g.spaces[i.ns].ifaces + [|g.info|]
      && (forall j :: 0 <= j < |g.spaces| && j != i.ns ==> h.spaces[j] == g.spaces[j])
      && (Bare(g) ==> Bare(h))
  {
  }

  // ----- on the heap

  lemma LoadSnoc(g: Graph, ns: nat, infos: seq<Info>, k: nat)
    requires WF(g) && ns < |g.spaces| && k < |infos| && forall j :: 0 <= j < |infos| ==> infos[j].ns == ns
    ensures LoadNs(g, ns, infos[..k + 1]) == GrowIface(LoadNs(g, ns, infos[..k]), infos[k])
  {
    assert infos[..k + 1][..k] == infos[..k];
  }

  lemma NsBelow(t: Topology, ns: NetnsEntry)
    requires t.Valid() && t.HasNs(ns)
    ensures WF(t.model) && ns.id < |t.model.spaces|
  {
  }

  /** The entries for records filled by if_list. */
  method Describe(ns: nat, rs: seq<Record>, xs: seq<Extra>, ghost ls: seq<seq<byte>>, ghost bs: seq<seq<byte>>)
    returns (infos: seq<Info>)
    requires |rs| == |ls| == |xs| && forall k :: 0 <= k < |ls| ==> IfAddrs.Listed(rs[k], ls[k], bs)
    ensures Usable(ls) && infos == NsInfos(ns, ls, bs, xs)
  {
    hide LinkFrom, Holding, InfoOf;
    infos := [];
    for k := 0 to |rs|
      invariant Usable(ls) && |infos| == k && infos == NsInfos(ns, ls, bs, xs)[..k]
    {
      var r := rs[k];
      assert IfAddrs.Listed(r, ls[k], bs);
      var l := Link(r.ifIndex, r.name, r.up, r.masterIndex, r.linkIndex, r.linkNetnsid);
      assert l == LinkFrom(ls[k]);
      infos := infos + [InfoOf(ns, l, r.addrs, xs[k])];
    }
  }

  /** The list_append calls of if_list. */
  method AddIfaces(t: Topology, ns: NetnsEntry, infos: seq<Info>)
    requires t.Valid() && t.HasNs(ns) && forall k :: 0 <= k < |infos| ==> infos[k].ns == ns.id
    modifies t.Repr
    ensures t.Valid() && t.HasNs(ns) && old(t.Repr) <= t.Repr && fresh(t.Repr - old(t.Repr))
    ensures WF(old(t.model)) && ns.id < |old(t.model).spaces| && t.model == LoadNs(old(t.model), ns.id, infos)
  {
    hide Topology.Valid, WF, GrowIface;
    NsBelow(t, ns);
    ghost var g := t.model;
    for k := 0 to |infos|
      invariant t.Valid() && t.HasNs(ns) && old(t.Repr) <= t.Repr && fresh(t.Repr - old(t.Repr))
      invariant t.model == LoadNs(g, ns.id, infos[..k])
    {
      LoadSnoc(g, ns.id, infos, k);
      var e := t.AddIface(ns, infos[k]);
    }
    assert infos[..|infos|] == infos;
  }

  /** if_list: the entries of a namespace from its two dumps. */
  method LoadIfaces(t: Topology, ns: NetnsEntry, linfo: seq<Message>, ainfo: seq<Message>, hooks: seq<int>,
                    scans: seq<int>, xs: seq<Extra>, ghost ls: seq<seq<byte>>, ghost bs: seq<seq<byte>>)
    returns (err: int)
    requires t.Valid() && t.HasNs(ns) && |xs| == |linfo|
    requires Dump(linfo, ls) && Dump(ainfo, bs) && Apart(linfo, ainfo)
    requires forall k :: 0 <= k < |ls| ==> |ls[k]| >= HEADER
    requires forall k :: 0 <= k < |linfo| ==> linfo[k] !in t.Repr
    requires forall k :: 0 <= k < |ainfo| ==> ainfo[k] !in t.Repr
    modifies t.Repr, linfo`start, ainfo`start
    ensures t.Valid() && err == ListErr(ls, bs, hooks, scans, |ls|)
    ensures WF(old(t.model)) && ns.id < |old(t.model).spaces|
    ensures err == 0 ==>
      Usable(ls) && |xs| == |ls| && t.model == LoadNs(old(t.model), ns.id, NsInfos(ns.id, ls, bs, xs))
    ensures err != 0 ==> t.model == old(t.model)
  {
    hide Topology.Valid, WF, LinkFrom, FillAll, Holding, ListErr, LoadNs;
    NsBelow(t, ns);
    var rs;
    err, rs := IfList(linfo, ainfo, hooks, scans, ls, bs);
    if err == 0 {
      var infos := Describe(ns.id, rs, xs, ls, bs);
      AddIfaces(t, ns, infos);
    }
  }
}
