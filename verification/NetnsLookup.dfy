/** match_all_netnsid as a function of the graph: relations the kernel reports through
    per-namespace identifiers. */
module NetnsLookup {
  import opened Common
  import opened Model
  import opened Resolution
  import opened Search

  /** match_netnsid */
  function NsWithId(ids: seq<NsId>, id: int): Option<nat> {
    if ids == [] then None else if ids[0].id == id then Some(ids[0].ns) else NsWithId(ids[1..], id)
  }

  lemma {:induction false} NsWithIdOneOf(ids: seq<NsId>, id: int)
    ensures NsWithId(ids, id).Some? ==> exists k :: 0 <= k < |ids| && ids[k] == NsId(id, NsWithId(ids, id).value)
  {
    if ids != [] {
      NsWithIdOneOf(ids[1..], id);
    }
  }

  /** The first interface of a list with the given index. */
  function WithIndex(info: seq<Info>, ids: seq<nat>, index: nat): Option<nat>
    requires AllBelow(ids, |info|)
  {
    if ids == [] then None
    else if info[ids[0]].ifIndex == index then Some(ids[0])
    else WithIndex(info, ids[1..], index)
  }

  lemma {:induction false} WithIndexOneOf(info: seq<Info>, ids: seq<nat>, index: nat)
    requires AllBelow(ids, |info|)
    ensures WithIndex(info, ids, index).Some? ==>
      WithIndex(info, ids, index).value in ids && info[WithIndex(info, ids, index).value].ifIndex == index
  {
    if ids != [] {
      WithIndexOneOf(info, ids[1..], index);
    }
  }

  /** Namespace `n` is the first one listed under the identifier. */
  ghost predicate ListedFirst(ids: seq<NsId>, id: int, n: nat) {
    exists k :: 0 <= k < |ids| && ids[k].id == id && ids[k].ns == n && forall j :: 0 <= j < k ==> ids[j].id != id
  }

  lemma {:induction false} NsWithIdIsFirst(ids: seq<NsId>, id: int, n: nat)
    ensures NsWithId(ids, id) == Some(n) <==> ListedFirst(ids, id, n)
  {
    if ids != [] {
      NsWithIdIsFirst(ids[1..], id, n);
      if ListedFirst(ids[1..], id, n) && ids[0].id != id {
        var k :| 0 <= k < |ids[1..]| && ids[1..][k].id == id && ids[1..][k].ns == n
          && forall j :: 0 <= j < k ==> ids[1..][j].id != id;
        assert ids[k + 1] == ids[1..][k];
        forall j | 0 <= j < k + 1 ensures ids[j].id != id {
          assert j > 0 ==> ids[j] == ids[1..][j - 1];
        }
      }
      if ListedFirst(ids, id, n) && ids[0].id != id {
        var k :| 0 <= k < |ids| && ids[k].id == id && ids[k].ns == n && forall j :: 0 <= j < k ==> ids[j].id != id;
        assert ids[1..][k - 1] == ids[k];
        forall j | 0 <= j < k - 1 ensures ids[1..][j].id != id {
          assert ids[1..][j] == ids[j + 1];
        }
      }
      if ids[0].id == id {
        assert ListedFirst(ids, id, n) <==> ids[0].ns == n;
      }
    }
  }

  /** Interface `e` is the first of the list with the index. */
  ghost predicate IndexedFirst(info: seq<Info>, ids: seq<nat>, index: nat, e: nat)
    requires AllBelow(ids, |info|)
  {
    exists k :: && 0 <= k < |ids| && ids[k] == e && info[ids[k]].ifIndex == index
           && forall j :: 0 <= j < k ==> info[ids[j]].ifIndex != index
  }

  lemma {:induction false} WithIndexIsFirst(info: seq<Info>, ids: seq<nat>, index: nat, e: nat)
    requires AllBelow(ids, |info|)
    ensures WithIndex(info, ids, index) == Some(e) <==> IndexedFirst(info, ids, index, e)
  {
    if ids != [] {
      WithIndexIsFirst(info, ids[1..], index, e);
      var t := ids[1..];
      if IndexedFirst(info, t, index, e) && info[ids[0]].ifIndex != index {
        var k :| 0 <= k < |t| && t[k] == e && info[t[k]].ifIndex == index
          && forall j :: 0 <= j < k ==> info[t[j]].ifIndex != index;
        assert ids[k + 1] == t[k];
        forall j | 0 <= j < k + 1 ensures info[ids[j]].ifIndex != index {
          assert j > 0 ==> ids[j] == t[j - 1];
        }
      }
      if IndexedFirst(info, ids, index, e) && info[ids[0]].ifIndex != index {
        var k :| 0 <= k < |ids| && ids[k] == e && info[ids[k]].ifIndex == index
          && forall j :: 0 <= j < k ==> info[ids[j]].ifIndex != index;
        assert t[k - 1] == ids[k];
        forall j | 0 <= j < k - 1 ensures info[t[j]].ifIndex != index {
          assert t[j] == ids[j + 1];
        }
      }
      if info[ids[0]].ifIndex == index {
        assert IndexedFirst(info, ids, index, e) <==> ids[0] == e;
      }
    }
  }

  /** match_if_netnsid */
  ghost function IfaceWithId(g: Graph, index: nat, id: int, current: nat): (r: Option<nat>)
    requires WF(g) && current < |g.spaces|
    ensures Id(g, r)
  {
    NsWithIdOneOf(g.spaces[current].ids, id);
    match NsWithId(g.spaces[current].ids, id)
    case None => None
    case Some(n) =>
      SpaceBelow(g, n);
      WithIndexOneOf(g.info, g.spaces[n].ifaces, index);
      WithIndex(g.info, g.spaces[n].ifaces, index)
  }

  ghost function LinkLookup(g: Graph, x: nat): (r: Option<nat>)
    requires WF(g) && x < |g.info|
    ensures Id(g, r)
  {
    IfaceWithId(g, g.info[x].linkIndex, g.info[x].linkNetnsid, g.info[x].ns)
  }

  ghost function LinkNetLookup(g: Graph, x: nat): (r: Option<nat>)
    requires WF(g) && x < |g.info|
    ensures r.Some? ==> r.value < |g.spaces|
  {
    NsWithIdOneOf(g.spaces[g.info[x].ns].ids, g.info[x].linkNetnsid);
    NsWithId(g.spaces[g.info[x].ns].ids, g.info[x].linkNetnsid)
  }

  ghost function PeerLookup(g: Graph, x: nat): (r: Option<nat>)
    requires WF(g) && x < |g.info|
    ensures Id(g, r)
  {
    IfaceWithId(g, g.info[x].peerIndex, g.info[x].peerNetnsid, g.info[x].ns)
  }

  /** Seen from namespace `from`, entry `e` is the first interface with the index in the first namespace
      listed under the identifier. */
  ghost predicate NamedById(g: Graph, from: nat, id: int, index: nat, e: nat)
    requires WF(g) && from < |g.spaces|
  {
    exists n: nat :: ListedFirst(g.spaces[from].ids, id, n) && FirstOf(g, n, index, e)
  }

  ghost predicate FirstOf(g: Graph, n: nat, index: nat, e: nat)
    requires WF(g)
  {
    n < |g.spaces| && AllBelow(g.spaces[n].ifaces, |g.info|) && IndexedFirst(g.info, g.spaces[n].ifaces, index, e)
  }

  lemma LookupIsNamed(g: Graph, index: nat, id: int, from: nat, e: nat)
    requires WF(g) && from < |g.spaces|
    ensures IfaceWithId(g, index, id, from) == Some(e) <==> NamedById(g, from, id, index, e)
  {
    hide WF, ListedFirst, IndexedFirst;
    forall n: nat ensures NsWithId(g.spaces[from].ids, id) == Some(n) <==> ListedFirst(g.spaces[from].ids, id, n) {
      NsWithIdIsFirst(g.spaces[from].ids, id, n);
    }
    NsWithIdOneOf(g.spaces[from].ids, id);
    if n: nat :| NsWithId(g.spaces[from].ids, id) == Some(n) {
      IdsInRange(g, from, id, n);
      SpaceBelow(g, n);
      WithIndexIsFirst(g.info, g.spaces[n].ifaces, index, e);
      assert FirstOf(g, n, index, e) <==> IndexedFirst(g.info, g.spaces[n].ifaces, index, e);
    }
  }

  lemma IdsInRange(g: Graph, from: nat, id: int, n: nat)
    requires WF(g) && from < |g.spaces| && NsWithId(g.spaces[from].ids, id) == Some(n)
    ensures n < |g.spaces|
  {
    NsWithIdOneOf(g.spaces[from].ids, id);
  }

  /** The three lookups spelled out. */
  lemma LookupsMean(g: Graph, x: nat, e: nat)
    requires WF(g) && x < |g.info|
    ensures g.info[x].ns < |g.spaces|
    ensures LinkLookup(g, x) == Some(e) <==>
      NamedById(g, g.info[x].ns, g.info[x].linkNetnsid, g.info[x].linkIndex, e)
    ensures PeerLookup(g, x) == Some(e) <==>
      NamedById(g, g.info[x].ns, g.info[x].peerNetnsid, g.info[x].peerIndex, e)
    ensures LinkNetLookup(g, x) == Some(e) <==>
      ListedFirst(g.spaces[g.info[x].ns].ids, g.info[x].linkNetnsid, e)
  {
    hide IfaceWithId, NamedById, ListedFirst;
    LookupIsNamed(g, g.info[x].linkIndex, g.info[x].linkNetnsid, g.info[x].ns, e);
    LookupIsNamed(g, g.info[x].peerIndex, g.info[x].peerNetnsid, g.info[x].ns, e);
    NsWithIdIsFirst(g.spaces[g.info[x].ns].ids, g.info[x].linkNetnsid, e);
  }

  /** The link half of the loop body. */
  ghost function LookupLink(g: Graph, x: nat): (h: Graph)
    requires WF(g) && x < |g.info|
    ensures WF(h) && h.info == g.info && h.spaces == g.spaces && h.master == g.master
  {
    if g.info[x].linkNetnsid < 0 then g
    else if g.info[x].linkIndex != 0 then SetLink(g, LinkLookup(g, x), x)
    else SetMarks(g, x, g.marks[x].(linkNet := LinkNetLookup(g, x)))
  }

  /** The peer half of the loop body. */
  ghost function LookupPeer(g: Graph, x: nat): (h: Graph)
    requires WF(g) && x < |g.info|
    ensures WF(h) && h.info == g.info && h.spaces == g.spaces && h.master == g.master
  {
    if g.info[x].peerNetnsid < 0 then g else Pair(g, Some(x), PeerLookup(g, x))
  }

  ghost function LookupAll(g: Graph, ids: seq<nat>): (h: Graph)
    requires WF(g) && AllBelow(ids, |g.info|)
    ensures WF(h) && h.info == g.info && h.spaces == g.spaces && h.master == g.master
  {
    hide WF, LookupLink, LookupPeer;
    if ids == [] then g
    else
      var h := LookupAll(g, ids[..|ids| - 1]);
      LookupPeer(LookupLink(h, ids[|ids| - 1]), ids[|ids| - 1])
  }

  // ----- links

  ghost predicate HasLinkId(g: Graph, x: nat)
    requires x < |g.info|
  {
    g.info[x].linkNetnsid >= 0 && g.info[x].linkIndex != 0
  }

  ghost predicate OnlyLinkNet(g: Graph, x: nat)
    requires x < |g.info|
  {
    g.info[x].linkNetnsid >= 0 && g.info[x].linkIndex == 0
  }

  ghost predicate LinksLooked(g: Graph, h: Graph, i: nat, seen: bool)
    requires WF(g) && WF(h) && h.info == g.info && i < |g.info|
  {
    && h.link.up[i] == (if seen && HasLinkId(g, i) then LinkLookup(g, i) else g.link.up[i])
    && h.marks[i] == g.marks[i].(
         linkNet := if seen && OnlyLinkNet(g, i) then LinkNetLookup(g, i) else g.marks[i].linkNet)
  }

  lemma LookupStep(g: Graph, h: Graph, x: nat, i: nat, seen: bool)
    requires WF(g) && WF(h) && h.info == g.info && h.spaces == g.spaces && i < |g.info| && x < |g.info|
    requires LinksLooked(g, h, i, seen) && (i == x ==> !seen)
    ensures LinksLooked(g, LookupPeer(LookupLink(h, x), x), i, seen || i == x)
  {
    hide Mirror, Involution, InRange, Placed, SetPeer, Unhook, Hook;
    Sizes(h);
    SetUpKeepsMirror(h.link, LinkLookup(h, x), x);
  }

  /** Every visited entry with a link index and identifier has exactly the link the lookup gives
      (possibly none); one with only an identifier points to the namespace; masters stay. */
  lemma {:induction false} LinksMeaning(g: Graph, ids: seq<nat>)
    requires WF(g) && AllBelow(ids, |g.info|) && NoDup(ids)
    ensures forall i :: 0 <= i < |g.info| ==> LinksLooked(g, LookupAll(g, ids), i, i in ids)
  {
    hide WF, LinksLooked, LookupPeer, LookupLink;
    if ids == [] {
      LinksNone(g);
    } else {
      var init := ids[..|ids| - 1];
      var x := ids[|ids| - 1];
      assert ids == init + [x] && x !in init;
      LinksMeaning(g, init);
      forall i | 0 <= i < |g.info| ensures LinksLooked(g, LookupAll(g, ids), i, i in ids) {
        LookupStep(g, LookupAll(g, init), x, i, i in init);
      }
    }
  }

  lemma LinksNone(g: Graph)
    requires WF(g)
    ensures forall i :: 0 <= i < |g.info| ==> LinksLooked(g, g, i, false)
  {
  }

  /** master_resolve, running later, keeps every link the lookup found. */
  lemma FoundLinksSurvive(g: Graph, x: nat)
    requires WF(g) && x < |g.info| && HasLinkId(g, x) && LinkLookup(g, x).Some?
    ensures var h := LookupAll(g, Order(g)); Resolve(h, Order(h)).link.up[x] == LinkLookup(g, x)
  {
    var h := LookupAll(g, Order(g));
    OrderMembers(g);
    LinksMeaning(g, Order(g));
    assert LinksLooked(g, h, x, x in Order(g));
    OrderMembers(h);
    ResolveMeaning(h, Order(h));
    assert Resolved(h, Resolve(h, Order(h)), x, x in Order(h));
  }

  // ----- peers

  /** The kernel reported a peer identifier for this entry. */
  predicate Reports(g: Graph, x: nat) {
    x < |g.info| && g.info[x].peerNetnsid >= 0
  }

  /** Two reports naming each other agree, and no entry is named twice. */
  ghost predicate Consistent(g: Graph)
    requires WF(g)
  {
    && (forall x: nat, y: nat :: Reports(g, x) && PeerLookup(g, x) == Some(y) && Reports(g, y) ==>
      PeerLookup(g, y) == Some(x))
    && (forall x: nat, z: nat :: 
         Reports(g, x) && Reports(g, z) && PeerLookup(g, x).Some? && PeerLookup(g, z) == PeerLookup(g, x) ==> x == z)
  }

  /** Peers after the entries in `ids` have been visited. */
  ghost predicate PeersLooked(g: Graph, h: Graph, ids: seq<nat>)
    requires WF(g) && WF(h) && h.info == g.info
  {
    && (forall x: nat, y: nat :: x < |g.info| && h.peer[x] == Some(y) ==>
          (Reports(g, x) && PeerLookup(g, x) == Some(y)) ||
            (Reports(g, y) && y < |g.info| && PeerLookup(g, y) == Some(x)))
    && (forall x {:trigger x in ids} :: x in ids && Reports(g, x) ==> h.peer[x] == PeerLookup(g, x))
  }

  lemma PeersStep(g: Graph, h: Graph, ids: seq<nat>, x: nat)
    requires WF(g) && WF(h) && h.info == g.info && h.spaces == g.spaces && AllBelow(ids, |g.info|) && x < |g.info|
    requires Consistent(g) && PeersLooked(g, h, ids)
    ensures PeersLooked(g, LookupPeer(LookupLink(h, x), x), ids + [x])
  {
    hide WF, PeerLookup, LookupPeer, LookupLink, SetPeer, Consistent, PeerAfter;
    var k := LookupPeer(LookupLink(h, x), x);
    PeerColumn(g);
    PeerColumn(h);
    PeerLookupSame(g, h, x);
    if Reports(g, x) {
      var t := PeerLookup(g, x);
      SetPeerEffect(h.peer, Some(x), t);
      forall z {:trigger z in ids} | z in ids + [x] && Reports(g, z) ensures k.peer[z] == PeerLookup(g, z) {
        KeptPeer(g, h, ids, x, z);
      }
      forall z: nat, y: nat | z < |g.info| && k.peer[z] == Some(y)
        ensures (Reports(g, z) && PeerLookup(g, z) == Some(y)) ||
          (Reports(g, y) && y < |g.info| && PeerLookup(g, y) == Some(z))
      {
        Explained(g, h, ids, x, z, y);
      }
    }
  }

  /** An entry that reported its peer keeps it when another one does. */
  lemma KeptPeer(g: Graph, h: Graph, ids: seq<nat>, x: nat, z: nat)
    requires WF(g) && WF(h) && h.info == g.info && x < |g.info| && AllBelow(ids, |g.info|) && Consistent(g)
    requires PeersLooked(g, h, ids) && Reports(g, x) && z in ids + [x] && Reports(g, z)
    ensures z < |h.peer| && PeerAfter(h.peer, Some(x), PeerLookup(g, x), z) == PeerLookup(g, z)
  {
    PeerColumn(h);
    hide WF, PeerLookup;
    assert Mutual(h.peer, z);
  }

  /** Where a pair comes from after one more entry reported its peer. */
  lemma Explained(g: Graph, h: Graph, ids: seq<nat>, x: nat, z: nat, y: nat)
    requires WF(g) && WF(h) && h.info == g.info && x < |g.info| && z < |g.info| && PeersLooked(g, h, ids) &&
      Reports(g, x)
    requires |h.peer| == |g.info| && PeerAfter(h.peer, Some(x), PeerLookup(g, x), z) == Some(y)
    ensures (Reports(g, z) && PeerLookup(g, z) == Some(y)) ||
      (Reports(g, y) && y < |g.info| && PeerLookup(g, y) == Some(z))
  {
    hide WF, PeerLookup;
  }

  ghost predicate NoPeers(g: Graph) {
    forall x :: 0 <= x < |g.peer| ==> g.peer[x] == None
  }

  lemma {:induction false} PeersMeaning(g: Graph, ids: seq<nat>)
    requires WF(g) && AllBelow(ids, |g.info|) && Consistent(g)
    requires NoPeers(g)
    ensures PeersLooked(g, LookupAll(g, ids), ids)
  {
    if ids != [] {
      PeersMeaning(g, ids[..|ids| - 1]);
      assert ids[..|ids| - 1] + [ids[|ids| - 1]] == ids;
      PeersStep(g, LookupAll(g, ids[..|ids| - 1]), ids[..|ids| - 1], ids[|ids| - 1]);
    }
  }

  lemma MustBeConsistent(g: Graph, p: seq<Option<nat>>)
    requires WF(g) && |p| == |g.info| && Involution(p)
    requires forall x: nat :: Reports(g, x) ==> p[x] == PeerLookup(g, x)
    ensures Consistent(g)
  {
    hide WF, PeerLookup;
    forall x: nat, y: nat | Reports(g, x) && PeerLookup(g, x) == Some(y) && Reports(g, y)
      ensures PeerLookup(g, y) == Some(x) {
      assert Mutual(p, x);
    }
    forall x: nat, z: nat | Reports(g, x) && Reports(g, z) && PeerLookup(g, x).Some? &&
      PeerLookup(g, z) == PeerLookup(g, x)
      ensures x == z
    {
      assert Mutual(p, x) && Mutual(p, z);
    }
  }

  lemma PeerColumn(g: Graph)
    requires WF(g)
    ensures |g.peer| == |g.info| && Involution(g.peer) && InRange(g.peer)
  {
  }

  lemma PeerLookupSame(g: Graph, h: Graph, x: nat)
    requires WF(g) && WF(h) && h.info == g.info && h.spaces == g.spaces && x < |g.info|
    ensures PeerLookup(h, x) == PeerLookup(g, x)
    ensures LookupPeer(LookupLink(h, x), x).peer ==
      if Reports(g, x) then SetPeer(h.peer, Some(x), PeerLookup(g, x)) else h.peer
  {
  }

  lemma PeersForward(g: Graph, ids: seq<nat>)
    requires WF(g) && AllBelow(ids, |g.info|) && Consistent(g) && NoPeers(g)
    requires forall x: nat :: x < |g.info| ==> x in ids
    ensures |LookupAll(g, ids).peer| == |g.info|
    ensures forall x: nat :: Reports(g, x) ==> LookupAll(g, ids).peer[x] == PeerLookup(g, x)
  {
    hide WF, PeerLookup, Consistent, LookupAll;
    PeersMeaning(g, ids);
    PeerColumn(LookupAll(g, ids));
    forall x: nat | Reports(g, x) ensures LookupAll(g, ids).peer[x] == PeerLookup(g, x) {
      assert x in ids;
    }
  }

  /** Starting without peers and in whatever order all entries are visited, every entry with a
      report ends up with the peer its lookup names if and only if the reports are consistent. */
  lemma PeersExact(g: Graph, ids: seq<nat>)
    requires WF(g) && AllBelow(ids, |g.info|)
    requires forall x: nat :: x < |g.info| ==> x in ids
    requires NoPeers(g)
    ensures Consistent(g) <==> forall x: nat :: Reports(g, x) ==> LookupAll(g, ids).peer[x] == PeerLookup(g, x)
  {
    hide WF, PeerLookup, Consistent, LookupAll;
    var h := LookupAll(g, ids);
    PeerColumn(h);
    if Consistent(g) {
      PeersForward(g, ids);
    }
    if forall x: nat :: Reports(g, x) ==> h.peer[x] == PeerLookup(g, x) {
      MustBeConsistent(g, h.peer);
    }
  }
}
