/** From the kernel's link messages to relations: what a message says about master, link and peer is what the
    passes make of the entry loaded for it. */
module FromMessages {
  import opened Attrs
  import opened Bytes
  import opened Common
  import Exchange
  import opened IfAddrs
  import opened Loading
  import opened Model
  import opened NetnsLookup
  import opened NlMsg
  import opened Passes
  import opened Reading
  import opened Resolution
  import opened Search

  /** What the kernel reports as the link of a veth device is its peer: neither the identifier lookup nor
      the index search gives the entry loaded for such a device a link, and its peer index is the reported
      one, with the identifier beside it, or the probed one if none is reported. */
  lemma VethHasNoLink(g: Graph, x: nat, ns: nat, l: Link, addrs: seq<IfAddr>, extra: Extra)
    requires WF(g) && x < |g.info| && g.link.up[x].None?
    requires l.Link? && extra.driver == "veth" && extra.lower.None? && g.info[x] == InfoOf(ns, l, addrs, extra)
    ensures x < |Relate(g).link.up| && Relate(g).link.up[x].None?
    ensures l.linkIndex != 0 ==> g.info[x].peerIndex == l.linkIndex && g.info[x].peerNetnsid == l.linkNetnsid
    ensures l.linkIndex == 0 ==> g.info[x].peerIndex == extra.probed && !Reports(g, x)
  {
    var h := LookupAll(g, Order(g));
    hide LookupAll, Resolve, Result, Doubtful;
    OrderMembers(g);
    LinksMeaning(g, Order(g));
    assert LinksLooked(g, h, x, x in Order(g));
    OrderMembers(h);
    ResolveMeaning(h, Order(h));
    assert Resolved(h, Resolve(h, Order(h)), x, x in Order(h));
    Sizes(Relate(g));
  }

  /** The identifier, if there is one, and the index name entry `e`. */
  ghost predicate Named(g: Graph, x: nat, id: Option<int>, index: nat, e: nat)
    requires WF(g) && x < |g.info|
  {
    id.Some? && id.value >= 0 && g.info[x].ns < |g.spaces| && NamedById(g, g.info[x].ns, id.value, index, e)
  }

  /** What the kernel puts into the attributes of a link message. */
  ghost predicate Says(ts: seq<Tlv>, name: seq<byte>, master: Option<nat>, link: Option<nat>, id: Option<int>) {
    && Attributes(ts) && 0 !in name && Told(ts, 3) == Some(name + [0])
    && Told(ts, 10) == Word(master) && IsWord(master) && Told(ts, 5) == Word(link) && IsWord(link)
    && Told(ts, 37) == Signed(id) && (id.Some? ==> -0x8000_0000 <= id.value < 0x8000_0000)
  }

  /** The entry loaded for the link message of a device other than veth hangs under what carries the master
      index of the message (or, if it has none, the index of the bridge sysfs names), and is linked to what
      identifier and index of the message name or, failing that, to what carries the index. */
  lemma MessageToRelations(g: Graph, x: nat, h: seq<byte>, fixed: seq<byte>, ts: seq<Tlv>, name: seq<byte>,
                           master: Option<nat>, link: Option<nat>, id: Option<int>, ns: nat, addrs: seq<IfAddr>,
                           extra: Extra)
    requires WF(g) && Bare(g) && x < |g.info| && extra.driver != "veth" && extra.lower.None?
    requires |h| == HEADER && U32(h) == HEADER && Exchange.TypeOf(h) == 16 && |fixed| == IFINFOMSG
    requires Says(ts, name, master, link, id) && LinkFrom(Built(h, fixed, ts)).Link?
    requires g.info[x] == InfoOf(ns, LinkFrom(Built(h, fixed, ts)), addrs, extra)
    ensures var r := Relate(g); var m := if Or(master, 0) != 0 then Or(master, 0) else extra.bridge;
      var index := Or(link, 0);
      && x < |r.master.up| && x < |r.link.up|
      && r.master.up[x] == (if m == 0 then None else Carrier(g, m, x))
      && (index == 0 ==> r.link.up[x] == None)
      && (index != 0 ==> forall e: nat :: r.link.up[x] == Some(e) <==>
            || Named(g, x, id, index, e)
            || ((forall d: nat :: !Named(g, x, id, index, d)) && Carrier(g, index, x) == Some(e)))
  {
    hide Relate, WF, Carrier, LinkTarget, MasterTarget, Named, Built, LinkFrom, Says;
    SaysMeans(h, fixed, ts, name, master, link, id);
    Related(g, x);
    MasterScanned(g, x);
    if Or(link, 0) != 0 {
      forall e: nat ensures LinkTarget(g, x) == Some(e) <==>
        || Named(g, x, id, Or(link, 0), e)
        || ((forall d: nat :: !Named(g, x, id, Or(link, 0), d)) && Carrier(g, Or(link, 0), x) == Some(e))
      {
        LinkScanned(g, x, id, e);
      }
    } else {
      NoLinkScanned(g, x);
    }
  }

  lemma MasterScanned(g: Graph, x: nat)
    requires WF(g) && Bare(g) && x < |g.info|
    ensures MasterTarget(g, x) == if g.info[x].masterIndex == 0 then None else Carrier(g, g.info[x].masterIndex, x)
  {
    hide Carrier, LinkLookup, LinkNetLookup;
    FromScan(g, x);
  }

  lemma NoLinkScanned(g: Graph, x: nat)
    requires WF(g) && Bare(g) && x < |g.info| && g.info[x].linkIndex == 0
    ensures LinkTarget(g, x) == None
  {
    hide Carrier, LinkLookup, LinkNetLookup;
    FromScan(g, x);
  }

  lemma LinkScanned(g: Graph, x: nat, id: Option<int>, e: nat)
    requires WF(g) && Bare(g) && x < |g.info| && g.info[x].linkIndex != 0 && g.info[x].linkNetnsid == Or(id, -1)
    ensures LinkTarget(g, x) == Some(e) <==>
      || Named(g, x, id, g.info[x].linkIndex, e)
      || ((forall d: nat :: !Named(g, x, id, g.info[x].linkIndex, d)) && Carrier(g, g.info[x].linkIndex, x) == Some(e))
  {
    hide WF, Carrier, LinkLookup, NamedById, LinkNetLookup, LinkTarget;
    FromScan(g, x);
    forall d: nat ensures Named(g, x, id, g.info[x].linkIndex, d) <==> HasLinkId(g, x) && LinkLookup(g, x) == Some(d) {
      LookupsMean(g, x, d);
    }
  }

  lemma SaysMeans(h: seq<byte>, fixed: seq<byte>, ts: seq<Tlv>, name: seq<byte>, master: Option<nat>,
                  link: Option<nat>, id: Option<int>)
    requires |h| == HEADER && U32(h) == HEADER && Exchange.TypeOf(h) == 16 && |fixed| == IFINFOMSG
    requires Says(ts, name, master, link, id)
    ensures var l := LinkFrom(Built(h, fixed, ts));
      && l.Link? && l.masterIndex == Or(master, 0) && l.linkIndex == Or(link, 0) && l.linkNetnsid == Or(id, -1)
  {
    AttributesRead(h, fixed, ts, Some(name), master, link, id);
  }
}
