/** The pointer graph itself: if_entry and netns_entry structures, each threaded on up to
    three intrusive lists, and the setters of master.c. `Topology.Valid` says that the heap
    mirrors the value `model`. */
module Topology {
  import opened Common
  import opened IntrusiveList
  import opened Model

  const NETNS_LIST := 0
  const IFACES := 1
  const REV_MASTER := 2
  const REV_LINK := 3

  class NetnsEntry {
    /** Position in the list of namespaces. */
    const id: nat
    const n: Node
    const ifaces: List
    const name: Option<string>
    var ids: seq<NetnsId>
    var warnings: nat

    constructor (id: nat, name: Option<string>, n: Node, ifaces: List)
      ensures this.id == id && this.name == name && this.n == n && this.ifaces == ifaces
      ensures ids == [] && warnings == 0
    {
      this.id, this.name, this.n, this.ifaces := id, name, n, ifaces;
      ids, warnings := [], 0;
    }
  }

  /** netns_id: the identifier some namespace uses for `ns`. */
  datatype NetnsId = NetnsId(id: int, ns: NetnsEntry)

  class IfEntry {
    ghost const id: nat
    const n: Node
    const revMasterNode: Node
    const revLinkNode: Node
    const revMaster: List
    const revLink: List
    const ns: NetnsEntry
    const info: Info
    var master: IfEntry?
    var link: IfEntry?
    var peer: IfEntry?
    var linkNet: NetnsEntry?
    var subDriver: Option<string>
    var weakLink: bool
    var warnings: nat

    /** if_create, with the scanned attributes already in place. */
    constructor (ghost id: nat, ns: NetnsEntry, info: Info,
                 n: Node, revMasterNode: Node, revLinkNode: Node, revMaster: List, revLink: List)
      ensures this.id == id && this.ns == ns && this.info == info && this.n == n
      ensures this.revMasterNode == revMasterNode && this.revLinkNode == revLinkNode
      ensures this.revMaster == revMaster && this.revLink == revLink
      ensures master == null && link == null && peer == null && linkNet == null
      ensures subDriver == None && !weakLink && warnings == 0
    {
      this.id, this.ns, this.info, this.n := id, ns, info, n;
      this.revMasterNode, this.revLinkNode := revMasterNode, revLinkNode;
      this.revMaster, this.revLink := revMaster, revLink;
      master, link, peer, linkNet := null, null, null, null;
      subDriver, weakLink, warnings := None, false, 0;
    }
  }

  /** Allocate an entry together with its nodes and lists. */
  method NewIfEntry(store: ListStore, id: nat, ns: NetnsEntry, info: Info) returns (e: IfEntry)
    requires store.Valid()
    modifies store`members, store`free, store`nodes
    ensures store.Valid() && fresh(e)
    ensures NewShape(e, id) && e.ns == ns && e.info == info
    ensures e.master == null && e.link == null && e.peer == null && e.linkNet == null
    ensures e.subDriver == None && !e.weakLink && e.warnings == 0
    ensures fresh(e.revMaster) && fresh(e.revLink)
    ensures fresh(e.n) && fresh(e.revMasterNode) && fresh(e.revLinkNode)
    ensures fresh(e.revMaster.head) && fresh(e.revMaster.tail) && fresh(e.revLink.head) && fresh(e.revLink.tail)
    ensures store.members == old(store.members)[e.revMaster := []][e.revLink := []]
    ensures store.free == old(store.free) + {e.n, e.revMasterNode, e.revLinkNode}
    ensures store.nodes == old(store.nodes) + {e.n, e.revMasterNode, e.revLinkNode}
      + {e.revMaster.head, e.revMaster.tail, e.revLink.head, e.revLink.tail}
  {
    hide ListStore.Valid;
    var n := store.NewNode(IFACES, id);
    var rm := store.NewNode(REV_MASTER, id);
    var rl := store.NewNode(REV_LINK, id);
    var lm := store.NewList(Tag(REV_MASTER, id));
    var ll := store.NewList(Tag(REV_LINK, id));
    e := new IfEntry(id, ns, info, n, rm, rl, lm, ll);
  }

  /** The number of an entry, absent for a null pointer. */
  ghost function Ref(e: IfEntry?): Option<nat> {
    if e == null then None else Some(e.id)
  }

  // ----- how nodes and lists represent the model, as facts about values only

  /** The node by which entry `i` is threaded on lists of the given kind. */
  ghost function NodeOf(table: seq<IfEntry>, kind: nat, i: nat): Node
    requires i < |table|
  {
    if kind == IFACES then table[i].n
    else if kind == REV_MASTER then table[i].revMasterNode
    else table[i].revLinkNode
  }

  ghost function Nodes(table: seq<IfEntry>, kind: nat, ids: seq<nat>): (r: seq<Node>)
    requires AllBelow(ids, |table|)
    ensures |r| == |ids|
  {
    seq(|ids|, k requires 0 <= k < |ids| => NodeOf(table, kind, ids[k]))
  }

  ghost predicate EntryShape(table: seq<IfEntry>, spaces: seq<NetnsEntry>, info: seq<Info>, i: nat)
    requires i < |table| == |info|
  {
    var e := table[i];
    && e.id == i && e.info == info[i]
    && e.info.ns < |spaces| && e.ns == spaces[e.info.ns]
    && e.n.role == IFACES && e.revMasterNode.role == REV_MASTER && e.revLinkNode.role == REV_LINK
    && e.n.holder == e.revMasterNode.holder == e.revLinkNode.holder == i
    && e.revMaster.tag == Tag(REV_MASTER, i) && e.revLink.tag == Tag(REV_LINK, i)
  }

  ghost predicate SpaceShape(spaces: seq<NetnsEntry>, ss: seq<Space>, j: nat)
    requires j < |spaces| == |ss|
  {
    var s := spaces[j];
    && s.id == j && s.name == ss[j].name
    && s.n.role == NETNS_LIST && s.n.holder == j
    && s.ifaces.tag == Tag(IFACES, j)
  }

  /** What never changes about existing entries and namespaces. */
  ghost predicate Shape(table: seq<IfEntry>, spaces: seq<NetnsEntry>, g: Graph) {
    && |table| == |g.info| && |spaces| == |g.spaces|
    && (forall i :: 0 <= i < |table| ==> EntryShape(table, spaces, g.info, i))
    && (forall j :: 0 <= j < |spaces| ==> SpaceShape(spaces, g.spaces, j))
  }

  /** The reverse list of entry `i` threads exactly the entries the relation says. */
  ghost predicate RevList(table: seq<IfEntry>, kind: nat, r: Rel, members: map<List, seq<Node>>, i: nat)
    requires i < |table| && i < |r.down|
  {
    var l := if kind == REV_MASTER then table[i].revMaster else table[i].revLink;
    l in members && AllBelow(r.down[i], |table|) && members[l] == Nodes(table, kind, r.down[i])
  }

  ghost predicate RevLists(table: seq<IfEntry>, kind: nat, r: Rel, members: map<List, seq<Node>>, free: set<Node>) {
    && |r.up| == |r.down| == |table|
    && (forall i :: 0 <= i < |table| ==> RevList(table, kind, r, members, i))
    && (forall i {:trigger r.up[i]} :: 0 <= i < |table| && r.up[i].None? ==> NodeOf(table, kind, i) in free)
  }

  ghost predicate SpaceList(table: seq<IfEntry>, spaces: seq<NetnsEntry>, ss: seq<Space>,
                            members: map<List, seq<Node>>, j: nat)
    requires j < |spaces| == |ss|
  {
    spaces[j].ifaces in members && AllBelow(ss[j].ifaces, |table|)
    && members[spaces[j].ifaces] == Nodes(table, IFACES, ss[j].ifaces)
  }

  ghost predicate SpaceLists(netnsList: List, table: seq<IfEntry>, spaces: seq<NetnsEntry>, ss: seq<Space>,
                             members: map<List, seq<Node>>)
  {
    && |ss| == |spaces|
    && (forall j :: 0 <= j < |spaces| ==> SpaceList(table, spaces, ss, members, j))
    && netnsList.tag == Tag(NETNS_LIST, 0) && netnsList in members
    && |members[netnsList]| == |spaces|
    && (forall j :: 0 <= j < |spaces| ==> members[netnsList][j] == spaces[j].n)
  }

  ghost predicate Linked(netnsList: List, table: seq<IfEntry>, spaces: seq<NetnsEntry>, g: Graph,
                         members: map<List, seq<Node>>, free: set<Node>)
  {
    && RevLists(table, REV_MASTER, g.master, members, free)
    && RevLists(table, REV_LINK, g.link, members, free)
    && SpaceLists(netnsList, table, spaces, g.spaces, members)
  }

  /** Where the node of `x` sits on the reverse list it is on. */
  lemma FindOnRevList(table: seq<IfEntry>, spaces: seq<NetnsEntry>, g: Graph, kind: nat, r: Rel,
                      members: map<List, seq<Node>>, free: set<Node>, x: nat)
    returns (l: List, k: nat)
    requires kind == REV_MASTER || kind == REV_LINK
    requires Mirror(r) && Shape(table, spaces, g) && RevLists(table, kind, r, members, free)
    requires x < |table| && r.up[x].Some?
    ensures l == if kind == REV_MASTER then table[r.up[x].value].revMaster else table[r.up[x].value].revLink
    ensures l in members && k < |members[l]| && members[l][k] == NodeOf(table, kind, x)
    ensures k < |r.down[r.up[x].value]| && r.down[r.up[x].value][k] == x
  {
    var m := r.up[x].value;
    assert RevList(table, kind, r, members, m);
    l := if kind == REV_MASTER then table[m].revMaster else table[m].revLink;
    k :| 0 <= k < |r.down[m]| && r.down[m][k] == x;
  }

  /** Taking the node off the list is what `Unhook` says. */
  lemma UnhookLinks(table: seq<IfEntry>, spaces: seq<NetnsEntry>, g: Graph, kind: nat, r: Rel,
                    members: map<List, seq<Node>>, free: set<Node>, x: nat, l: List, k: nat)
    requires kind == REV_MASTER || kind == REV_LINK
    requires Mirror(r) && Shape(table, spaces, g) && RevLists(table, kind, r, members, free)
    requires x < |table| && r.up[x].Some?
    requires l == if kind == REV_MASTER then table[r.up[x].value].revMaster else table[r.up[x].value].revLink
    requires k < |r.down[r.up[x].value]| && r.down[r.up[x].value][k] == x
    requires l in members
    ensures k < |members[l]|
    ensures RevLists(table, kind, SetUp(r, None, x),
                     members[l := members[l][..k] + members[l][k + 1..]], free + {NodeOf(table, kind, x)})
  {
    var m := r.up[x].value;
    assert RevList(table, kind, r, members, m);
    var members' := members[l := members[l][..k] + members[l][k + 1..]];
    WithoutAt(r.down[m], k);
    var r' := SetUp(r, None, x);
    forall i | 0 <= i < |table| ensures RevList(table, kind, r', members', i) {
      assert RevList(table, kind, r, members, i);
      assert EntryShape(table, spaces, g.info, i) && EntryShape(table, spaces, g.info, m);
    }
  }

  /** Threading `x` on the list of `t` is what `Hook` says. */
  lemma HookLinks(table: seq<IfEntry>, spaces: seq<NetnsEntry>, g: Graph, kind: nat, r: Rel,
                  members: map<List, seq<Node>>, free: set<Node>, x: nat, m: nat, l: List)
    requires kind == REV_MASTER || kind == REV_LINK
    requires Mirror(r) && Shape(table, spaces, g) && RevLists(table, kind, r, members, free)
    requires x < |table| && m < |table| && r.up[x].None?
    requires l == if kind == REV_MASTER then table[m].revMaster else table[m].revLink
    ensures l in members
    ensures RevLists(table, kind, SetUp(r, Some(m), x),
                     members[l := members[l] + [NodeOf(table, kind, x)]], free - {NodeOf(table, kind, x)})
  {
    assert RevList(table, kind, r, members, m);
    var members' := members[l := members[l] + [NodeOf(table, kind, x)]];
    var r' := SetUp(r, Some(m), x);
    forall i | 0 <= i < |table| ensures RevList(table, kind, r', members', i) {
      assert RevList(table, kind, r, members, i);
      assert EntryShape(table, spaces, g.info, i) && EntryShape(table, spaces, g.info, m);
    }
    forall i | 0 <= i < |table| && r'.up[i].None?
      ensures NodeOf(table, kind, i) in free - {NodeOf(table, kind, x)}
    {
      assert r.up[i].None?;
      assert EntryShape(table, spaces, g.info, i) && EntryShape(table, spaces, g.info, x);
    }
  }

  /** A change to one reverse list leaves every list of the other kinds alone. */
  lemma OtherKindKept(table: seq<IfEntry>, spaces: seq<NetnsEntry>, g: Graph, kind: nat, r: Rel,
                      members: map<List, seq<Node>>, free: set<Node>,
                      members': map<List, seq<Node>>, free': set<Node>, l: List)
    requires kind == REV_MASTER || kind == REV_LINK
    requires Shape(table, spaces, g) && RevLists(table, kind, r, members, free)
    requires l.tag.role != kind && members'.Keys >= members.Keys
    requires forall o :: o in members && o != l ==> members'[o] == members[o]
    requires forall n :: n in free && n.role == kind ==> n in free'
    ensures RevLists(table, kind, r, members', free')
  {
    forall i | 0 <= i < |table| ensures RevList(table, kind, r, members', i) {
      assert RevList(table, kind, r, members, i) && EntryShape(table, spaces, g.info, i);
    }
    forall i | 0 <= i < |table| && r.up[i].None? ensures NodeOf(table, kind, i) in free' {
      assert EntryShape(table, spaces, g.info, i);
    }
  }

  lemma SpaceListsKept(netnsList: List, table: seq<IfEntry>, spaces: seq<NetnsEntry>, g: Graph,
                       members: map<List, seq<Node>>, members': map<List, seq<Node>>, l: List)
    requires Shape(table, spaces, g) && SpaceLists(netnsList, table, spaces, g.spaces, members)
    requires l.tag.role == REV_MASTER || l.tag.role == REV_LINK
    requires members'.Keys >= members.Keys
    requires forall o :: o in members && o != l ==> members'[o] == members[o]
    ensures SpaceLists(netnsList, table, spaces, g.spaces, members')
  {
    forall j | 0 <= j < |spaces| ensures SpaceList(table, spaces, g.spaces, members', j) {
      assert SpaceList(table, spaces, g.spaces, members, j) && SpaceShape(spaces, g.spaces, j);
    }
  }

  ghost function RelOf(g: Graph, kind: nat): Rel {
    if kind == REV_MASTER then g.master else g.link
  }

  /** master_set or link_set on the model. */
  ghost function SetRel(g: Graph, kind: nat, t: Option<nat>, x: nat): (h: Graph)
    requires WF(g) && x < |g.info| && Id(g, t)
    ensures WF(h)
  {
    if kind == REV_MASTER then SetMaster(g, t, x) else SetLink(g, t, x)
  }

  ghost function RevListOf(e: IfEntry, kind: nat): List {
    if kind == REV_MASTER then e.revMaster else e.revLink
  }

  /** The node_remove of master_set and link_set, on the representation as a whole. */
  lemma Unlinked(netnsList: List, table: seq<IfEntry>, spaces: seq<NetnsEntry>, g: Graph, kind: nat,
                 members: map<List, seq<Node>>, free: set<Node>, x: nat)
    returns (l: List, k: nat)
    requires kind == REV_MASTER || kind == REV_LINK
    requires WF(g) && Shape(table, spaces, g) && Linked(netnsList, table, spaces, g, members, free)
    requires x < |table| && RelOf(g, kind).up[x].Some?
    ensures l in members && k < |members[l]| && members[l][k] == NodeOf(table, kind, x)
    ensures Shape(table, spaces, SetRel(g, kind, None, x)) && RelOf(SetRel(g, kind, None, x), kind).up[x].None?
    ensures Linked(netnsList, table, spaces, SetRel(g, kind, None, x),
                   members[l := members[l][..k] + members[l][k + 1..]], free + {NodeOf(table, kind, x)})
  {
    var r := RelOf(g, kind);
    l, k := FindOnRevList(table, spaces, g, kind, r, members, free, x);
    UnhookLinks(table, spaces, g, kind, r, members, free, x, l, k);
    var members' := members[l := members[l][..k] + members[l][k + 1..]];
    var free' := free + {NodeOf(table, kind, x)};
    assert EntryShape(table, spaces, g.info, r.up[x].value);
    var other := if kind == REV_MASTER then REV_LINK else REV_MASTER;
    OtherKindKept(table, spaces, g, other, RelOf(g, other), members, free, members', free', l);
    SpaceListsKept(netnsList, table, spaces, g, members, members', l);
    assert Shape(table, spaces, SetRel(g, kind, None, x)) by {
      SameShape(table, spaces, g, SetRel(g, kind, None, x));
    }
  }

  /** The list_append of master_set and link_set, on the representation as a whole. */
  lemma Relinked(netnsList: List, table: seq<IfEntry>, spaces: seq<NetnsEntry>, g: Graph, kind: nat,
                 members: map<List, seq<Node>>, free: set<Node>, x: nat, m: nat)
    requires kind == REV_MASTER || kind == REV_LINK
    requires WF(g) && Shape(table, spaces, g) && Linked(netnsList, table, spaces, g, members, free)
    requires x < |table| && m < |table| && RelOf(g, kind).up[x].None?
    ensures var l := RevListOf(table[m], kind);
      && l in members && NodeOf(table, kind, x) in free
      && Shape(table, spaces, SetRel(g, kind, Some(m), x))
      && Linked(netnsList, table, spaces, SetRel(g, kind, Some(m), x),
                members[l := members[l] + [NodeOf(table, kind, x)]], free - {NodeOf(table, kind, x)})
  {
    var l := RevListOf(table[m], kind);
    HookLinks(table, spaces, g, kind, RelOf(g, kind), members, free, x, m, l);
    var members' := members[l := members[l] + [NodeOf(table, kind, x)]];
    var free' := free - {NodeOf(table, kind, x)};
    assert EntryShape(table, spaces, g.info, m) && EntryShape(table, spaces, g.info, x);
    var other := if kind == REV_MASTER then REV_LINK else REV_MASTER;
    OtherKindKept(table, spaces, g, other, RelOf(g, other), members, free, members', free', l);
    SpaceListsKept(netnsList, table, spaces, g, members, members', l);
    assert Shape(table, spaces, SetRel(g, kind, Some(m), x)) by {
      SameShape(table, spaces, g, SetRel(g, kind, Some(m), x));
    }
  }

  /** What setting a relation does to the columns of the graph. */
  lemma SetRelColumns(g: Graph, kind: nat, t: Option<nat>, x: nat)
    requires WF(g) && x < |g.info| && Id(g, t)
    ensures SetRel(SetRel(g, kind, None, x), kind, t, x) == SetRel(g, kind, t, x)
    ensures kind == REV_MASTER ==> SetRel(g, kind, t, x) == g.(master := SetRel(g, kind, t, x).master)
    ensures kind != REV_MASTER ==> SetRel(g, kind, t, x) == g.(link := SetRel(g, kind, t, x).link)
    ensures RelOf(SetRel(g, kind, t, x), kind).up == RelOf(g, kind).up[x := t]
    ensures |RelOf(g, kind).up| == |g.info|
    ensures t == RelOf(g, kind).up[x] == None ==> SetRel(g, kind, t, x) == g
  {
    SetUpTwice(RelOf(g, kind), t, x);
  }

  lemma SameShape(table: seq<IfEntry>, spaces: seq<NetnsEntry>, g: Graph, h: Graph)
    requires Shape(table, spaces, g) && h.info == g.info && |h.spaces| == |g.spaces|
    requires forall j :: 0 <= j < |g.spaces| ==> h.spaces[j].name == g.spaces[j].name
    ensures Shape(table, spaces, h)
  {
    forall i | 0 <= i < |table| ensures EntryShape(table, spaces, h.info, i) {
      assert EntryShape(table, spaces, g.info, i);
    }
    forall j | 0 <= j < |spaces| ensures SpaceShape(spaces, h.spaces, j) {
      assert SpaceShape(spaces, g.spaces, j);
    }
  }

  lemma Numbers(table: seq<IfEntry>, spaces: seq<NetnsEntry>, g: Graph)
    requires Shape(table, spaces, g)
    ensures forall i {:trigger table[i]} :: 0 <= i < |table| ==> table[i].id == i
    ensures forall j {:trigger spaces[j]} :: 0 <= j < |spaces| ==> spaces[j].id == j
    ensures |table| == |g.info| && |spaces| == |g.spaces|
  {
    forall i | 0 <= i < |table| ensures table[i].id == i {
      assert EntryShape(table, spaces, g.info, i);
    }
    forall j | 0 <= j < |spaces| ensures spaces[j].id == j {
      assert SpaceShape(spaces, g.spaces, j);
    }
  }

  ghost function At(table: seq<IfEntry>, t: Option<nat>): IfEntry? {
    if t.Some? && t.value < |table| then table[t.value] else null
  }

  ghost function SpaceAt(spaces: seq<NetnsEntry>, t: Option<nat>): NetnsEntry? {
    if t.Some? && t.value < |spaces| then spaces[t.value] else null
  }

  /** The tags of a new entry's nodes and lists. */
  ghost predicate NewShape(e: IfEntry, n: nat) {
    && e.id == n
    && e.n.role == IFACES && e.revMasterNode.role == REV_MASTER && e.revLinkNode.role == REV_LINK
    && e.n.holder == e.revMasterNode.holder == e.revLinkNode.holder == n
    && e.revMaster.tag == Tag(REV_MASTER, n) && e.revLink.tag == Tag(REV_LINK, n)
  }

  lemma GrownRevLists(table: seq<IfEntry>, spaces: seq<NetnsEntry>, g: Graph, kind: nat, r: Rel,
                      members: map<List, seq<Node>>, free: set<Node>, e: IfEntry,
                      members': map<List, seq<Node>>, free': set<Node>)
    requires kind == REV_MASTER || kind == REV_LINK
    requires Shape(table, spaces, g) && RevLists(table, kind, r, members, free)
    requires RevListOf(e, kind) in members' && members'[RevListOf(e, kind)] == []
    requires forall l :: l in members && l.tag.role == kind ==> l in members' && members'[l] == members[l]
    requires forall n :: n in free && n.role == kind ==> n in free'
    requires NodeOf([e], kind, 0) in free'
    ensures RevLists(table + [e], kind, Rel(r.up + [None], r.down + [[]]), members', free')
  {
    var table' := table + [e];
    var r' := Rel(r.up + [None], r.down + [[]]);
    forall i | 0 <= i < |table'| ensures RevList(table', kind, r', members', i) {
      if i < |table| {
        assert RevList(table, kind, r, members, i) && EntryShape(table, spaces, g.info, i) && table'[i] == table[i];
        assert Nodes(table', kind, r.down[i]) == Nodes(table, kind, r.down[i]);
      }
    }
    forall i | 0 <= i < |table'| && r'.up[i].None? ensures NodeOf(table', kind, i) in free' {
      if i < |table| {
        assert r.up[i].None? && EntryShape(table, spaces, g.info, i) && table'[i] == table[i];
      }
    }
  }

  lemma GrownSpaceLists(netnsList: List, table: seq<IfEntry>, spaces: seq<NetnsEntry>, g: Graph,
                        members: map<List, seq<Node>>, e: IfEntry, ns: nat, members': map<List, seq<Node>>)
    requires Shape(table, spaces, g) && SpaceLists(netnsList, table, spaces, g.spaces, members)
    requires ns < |spaces| && spaces[ns].ifaces in members && spaces[ns].ifaces in members'
    requires members'[spaces[ns].ifaces] == members[spaces[ns].ifaces] + [e.n]
    requires forall l :: l in members && l != spaces[ns].ifaces ==> l in members' && members'[l] == members[l]
    ensures var s := g.spaces[ns];
      SpaceLists(netnsList, table + [e], spaces, g.spaces[ns := s.(ifaces := s.ifaces + [|table|])], members')
  {
    var s := g.spaces[ns];
    var ss := g.spaces[ns := s.(ifaces := s.ifaces + [|table|])];
    assert SpaceShape(spaces, g.spaces, ns);
    forall j | 0 <= j < |spaces| ensures SpaceList(table + [e], spaces, ss, members', j) {
      assert SpaceShape(spaces, g.spaces, j) && SpaceList(table, spaces, g.spaces, members, j);
      assert Nodes(table + [e], IFACES, g.spaces[j].ifaces) == Nodes(table, IFACES, g.spaces[j].ifaces);
    }
  }

  lemma Grown(netnsList: List, table: seq<IfEntry>, spaces: seq<NetnsEntry>, g: Graph, info: Info,
              members: map<List, seq<Node>>, free: set<Node>, e: IfEntry)
    requires WF(g) && Shape(table, spaces, g) && Linked(netnsList, table, spaces, g, members, free)
    requires NewShape(e, |table|) && info.ns < |spaces| && e.info == info && e.ns == spaces[info.ns]
    requires e.revMaster !in members && e.revLink !in members
    ensures spaces[info.ns].ifaces in members
    ensures var l := spaces[info.ns].ifaces; var m := members[e.revMaster := []][e.revLink := []];
      && Shape(table + [e], spaces, GrowIface(g, info))
      && Linked(netnsList, table + [e], spaces, GrowIface(g, info), m[l := m[l] + [e.n]],
                free + {e.n, e.revMasterNode, e.revLinkNode} - {e.n})
  {
    var l := spaces[info.ns].ifaces;
    assert SpaceShape(spaces, g.spaces, info.ns) && SpaceList(table, spaces, g.spaces, members, info.ns);
    var m := members[e.revMaster := []][e.revLink := []];
    var members' := m[l := m[l] + [e.n]];
    var free' := free + {e.n, e.revMasterNode, e.revLinkNode} - {e.n};
    var h := GrowIface(g, info);
    GrownRevLists(table, spaces, g, REV_MASTER, g.master, members, free, e, members', free');
    GrownRevLists(table, spaces, g, REV_LINK, g.link, members, free, e, members', free');
    GrownSpaceLists(netnsList, table, spaces, g, members, e, info.ns, members');
    forall i | 0 <= i < |table + [e]| ensures EntryShape(table + [e], spaces, h.info, i) {
      assert i < |table| ==> EntryShape(table, spaces, g.info, i);
    }
    forall j | 0 <= j < |spaces| ensures SpaceShape(spaces, h.spaces, j) {
      assert SpaceShape(spaces, g.spaces, j);
    }
  }

  lemma GrownSpaces(netnsList: List, table: seq<IfEntry>, spaces: seq<NetnsEntry>, g: Graph, name: Option<string>,
                    members: map<List, seq<Node>>, free: set<Node>, ns: NetnsEntry)
    requires WF(g) && Shape(table, spaces, g) && Linked(netnsList, table, spaces, g, members, free)
    requires ns.id == |spaces| && ns.name == name && ns.n.role == NETNS_LIST && ns.n.holder == |spaces|
    requires ns.ifaces.tag == Tag(IFACES, |spaces|) && ns.ifaces !in members && ns.n !in free
    ensures netnsList in members
    ensures var m := members[ns.ifaces := []];
      && Shape(table, spaces + [ns], GrowSpace(g, name))
      && Linked(netnsList, table, spaces + [ns], GrowSpace(g, name), m[netnsList := m[netnsList] + [ns.n]],
                free + {ns.n} - {ns.n})
  {
    var m := members[ns.ifaces := []];
    var members' := m[netnsList := m[netnsList] + [ns.n]];
    var spaces' := spaces + [ns];
    var h := GrowSpace(g, name);
    assert free + {ns.n} - {ns.n} == free;
    forall i | 0 <= i < |table|
      ensures EntryShape(table, spaces', h.info, i)
      ensures RevList(table, REV_MASTER, h.master, members', i) && RevList(table, REV_LINK, h.link, members', i)
    {
      assert EntryShape(table, spaces, g.info, i);
      assert RevList(table, REV_MASTER, g.master, members, i) && RevList(table, REV_LINK, g.link, members, i);
    }
    forall j | 0 <= j < |spaces'| ensures SpaceShape(spaces', h.spaces, j) &&
      SpaceList(table, spaces', h.spaces, members', j) {
      if j < |spaces| {
        assert SpaceShape(spaces, g.spaces, j) && SpaceList(table, spaces, g.spaces, members, j);
      }
    }
  }

  /** Allocate a namespace together with its node and its list. */
  method NewNetnsEntry(store: ListStore, id: nat, name: Option<string>) returns (ns: NetnsEntry)
    requires store.Valid()
    modifies store`members, store`free, store`nodes
    ensures store.Valid() && fresh(ns) && fresh(ns.n) && fresh(ns.ifaces) && fresh(ns.ifaces.head) &&
      fresh(ns.ifaces.tail)
    ensures ns.id == id && ns.name == name && ns.n.role == NETNS_LIST && ns.n.holder == id
    ensures ns.ifaces.tag == Tag(IFACES, id) && ns.ids == [] && ns.warnings == 0
    ensures store.members == old(store.members)[ns.ifaces := []]
    ensures store.free == old(store.free) + {ns.n}
    ensures store.nodes == old(store.nodes) + {ns.n} + {ns.ifaces.head, ns.ifaces.tail}
  {
    hide ListStore.Valid;
    var n := store.NewNode(NETNS_LIST, id);
    var l := store.NewList(Tag(IFACES, id));
    ns := new NetnsEntry(id, name, n, l);
  }

  lemma EmptyGraph(l: List, members: map<List, seq<Node>>, free: set<Node>)
    requires l.tag == Tag(NETNS_LIST, 0) && members == map[l := []]
    ensures var g := Graph([], Rel([], []), Rel([], []), [], [], []);
      WF(g) && Shape([], [], g) && Linked(l, [], [], g, members, free)
  {
  }

  // ----- the mutable fields, one predicate per field so that writing one leaves the others be

  ghost predicate MasterFields(table: seq<IfEntry>, up: seq<Option<nat>>)
    reads table`master
  {
    |up| == |table| && forall i {:trigger table[i]} {:trigger up[i]} :: 0 <= i < |table| ==>
      table[i].master == At(table, up[i])
  }

  ghost predicate LinkFields(table: seq<IfEntry>, up: seq<Option<nat>>)
    reads table`link
  {
    |up| == |table| && forall i {:trigger table[i]} {:trigger up[i]} :: 0 <= i < |table| ==>
      table[i].link == At(table, up[i])
  }

  ghost predicate PeerFields(table: seq<IfEntry>, peer: seq<Option<nat>>)
    reads table`peer
  {
    |peer| == |table| && forall i {:trigger table[i]} {:trigger peer[i]} :: 0 <= i < |table| ==>
      table[i].peer == At(table, peer[i])
  }

  ghost predicate MarkFields(table: seq<IfEntry>, spaces: seq<NetnsEntry>, marks: seq<Marks>)
    reads table`linkNet, table`subDriver, table`weakLink, table`warnings
  {
    && |marks| == |table|
    && forall i {:trigger table[i]} {:trigger marks[i]} :: 0 <= i < |table| ==>
         && table[i].linkNet == SpaceAt(spaces, marks[i].linkNet)
         && marks[i] == Marks(marks[i].linkNet, table[i].subDriver, table[i].weakLink, table[i].warnings)
  }

  ghost predicate SpaceFields(spaces: seq<NetnsEntry>, ss: seq<Space>)
    reads spaces`ids, spaces`warnings
  {
    && |spaces| == |ss|
    && forall j {:trigger spaces[j]} {:trigger ss[j]} :: 0 <= j < |spaces| ==>
         spaces[j].warnings == ss[j].warnings && IdsMatch(spaces, spaces[j].ids, ss[j].ids)
  }

  ghost predicate IdsMatch(spaces: seq<NetnsEntry>, ids: seq<NetnsId>, ms: seq<NsId>) {
    && |ids| == |ms|
    && forall k :: 0 <= k < |ids| ==> ids[k].id == ms[k].id && ids[k].ns == SpaceAt(spaces, Some(ms[k].ns))
  }

  class Topology {
    const netnsList: List
    /** All entries and namespaces by number: the address space NODE_CONTAINER works on. */
    var table: seq<IfEntry>
    var spaces: seq<NetnsEntry>
    const store: ListStore
    ghost var model: Graph
    /** Everything the graph consists of. */
    ghost var Repr: set<object>

    ghost predicate Has(e: IfEntry)
      reads this
    {
      e.id < |table| && table[e.id] == e
    }

    ghost predicate Numbered()
      reads this
    {
      forall i {:trigger table[i]} :: 0 <= i < |table| ==> table[i].id == i
    }

    ghost predicate HasNs(ns: NetnsEntry)
      reads this
    {
      ns.id < |spaces| && spaces[ns.id] == ns
    }

    ghost predicate Covered()
      reads this, store
    {
      && this in Repr && store in Repr
      && (forall i {:trigger table[i]} :: 0 <= i < |table| ==> table[i] in Repr)
      && (forall j {:trigger spaces[j]} :: 0 <= j < |spaces| ==> spaces[j] in Repr)
      && (forall l :: l in store.members ==> l in Repr)
      && (forall n :: n in store.nodes ==> n in Repr)
    }

    /** The part of the invariant that reads the heap. */
    ghost predicate Stored()
      reads this, Repr
    {
      && this in Repr && store in Repr && Covered() && store.Valid()
      && MasterFields(table, model.master.up) && LinkFields(table, model.link.up) && PeerFields(table, model.peer)
      && MarkFields(table, spaces, model.marks) && SpaceFields(spaces, model.spaces)
    }

    ghost predicate Valid()
      reads this, Repr
    {
      Stored() && Threaded(model)
    }

    constructor ()
      ensures Valid() && fresh(Repr) && table == [] && spaces == []
      ensures model == Graph([], Rel([], []), Rel([], []), [], [], [])
    {
      hide WF, Shape, Linked, ListStore.Valid;
      var s := new ListStore();
      var l := s.NewList(Tag(NETNS_LIST, 0));
      EmptyGraph(l, s.members, s.free);
      netnsList, store := l, s;
      table, spaces := [], [];
      model := Graph([], Rel([], []), Rel([], []), [], [], []);
      Repr := {this, s, l, l.head, l.tail};
    }

    /** Write one pointer field, and the model with it. */
    method PutMaster(e: IfEntry, m: IfEntry?, ghost x: nat, ghost h: Graph)
      requires Stored() && x < |table| && table[x] == e && NoDup(table)
      requires h == model.(master := h.master) && |h.master.up| == |table| && m == At(table, h.master.up[x])
      requires h.master.up == model.master.up[x := h.master.up[x]]
      modifies e`master, this`model
      ensures Stored() && model == h && e.master == m
    {
      hide LinkFields, PeerFields, MarkFields, SpaceFields, ListStore.Valid;
      model := h;
      e.master := m;
    }

    method PutLink(e: IfEntry, m: IfEntry?, ghost x: nat, ghost h: Graph)
      requires Stored() && x < |table| && table[x] == e && NoDup(table)
      requires h == model.(link := h.link) && |h.link.up| == |table| && m == At(table, h.link.up[x])
      requires h.link.up == model.link.up[x := h.link.up[x]]
      modifies e`link, this`model
      ensures Stored() && model == h && e.link == m
    {
      hide MasterFields, PeerFields, MarkFields, SpaceFields, ListStore.Valid;
      model := h;
      e.link := m;
    }

    /** node_remove */
    method Unthread(n: Node, ghost l: List, ghost k: nat)
      requires Stored()
      requires l in store.members && k < |store.members[l]| && store.members[l][k] == n
      modifies store`members, store`free, store.members.Keys`nodes, store.nodes`next, store.nodes`prev, store.nodes`home
      ensures Stored()
      ensures store.members == old(store.members)[l := old(store.members)[l][..k] + old(store.members)[l][k + 1..]]
      ensures store.free == old(store.free) + {n}
      ensures store.members.Keys == old(store.members.Keys)
    {
      hide MasterFields, LinkFields, PeerFields, MarkFields, SpaceFields, ListStore.Valid;
      store.Remove(n, l, k);
    }

    /** list_append */
    method Thread(l: List, n: Node)
      requires Stored()
      requires l in store.members && n in store.free
      modifies store`members, store`free, store.members.Keys`nodes, store.nodes`next, store.nodes`prev, store.nodes`home
      ensures Stored()
      ensures store.members == old(store.members)[l := old(store.members)[l] + [n]]
      ensures store.free == old(store.free) - {n}
      ensures store.members.Keys == old(store.members.Keys)
    {
      hide MasterFields, LinkFields, PeerFields, MarkFields, SpaceFields, ListStore.Valid;
      store.Append(l, n);
    }

    /** The lists and nodes represent graph `g`. */
    ghost predicate Threaded(g: Graph)
      reads this`table, this`spaces, store`members, store`free
    {
      && WF(g) && Shape(table, spaces, g)
      && Linked(netnsList, table, spaces, g, store.members, store.free)
    }

    /** node_remove from the reverse list `x` is on. */
    method HookOff(n: Node, ghost kind: nat, ghost x: nat)
      requires kind == REV_MASTER || kind == REV_LINK
      requires Stored() && Threaded(model)
      requires x < |table| && RelOf(model, kind).up[x].Some? && n == NodeOf(table, kind, x)
      modifies store`members, store`free, store.members.Keys`nodes, store.nodes`next, store.nodes`prev, store.nodes`home
      ensures Stored() && Threaded(SetRel(model, kind, None, x)) && store.members.Keys == old(store.members.Keys)
    {
      hide WF, Shape, Linked, SetRel, ListStore.Valid, MasterFields, LinkFields, PeerFields, MarkFields, SpaceFields;
      ghost var l, k := Unlinked(netnsList, table, spaces, model, kind, store.members, store.free, x);
      Unthread(n, l, k);
    }

    /** list_append to the reverse list of `m`. */
    method HookOn(l: List, n: Node, ghost kind: nat, ghost x: nat, ghost m: nat, ghost d: Graph)
      requires kind == REV_MASTER || kind == REV_LINK
      requires Stored() && Threaded(d)
      requires x < |table| && m < |table| && RelOf(d, kind).up[x].None?
      requires n == NodeOf(table, kind, x) && l == RevListOf(table[m], kind)
      modifies store`members, store`free, store.members.Keys`nodes, store.nodes`next, store.nodes`prev, store.nodes`home
      ensures Stored() && Threaded(SetRel(d, kind, Some(m), x)) && store.members.Keys == old(store.members.Keys)
    {
      hide WF, Shape, Linked, SetRel, ListStore.Valid, MasterFields, LinkFields, PeerFields, MarkFields, SpaceFields;
      Relinked(netnsList, table, spaces, d, kind, store.members, store.free, x, m);
      Thread(l, n);
    }

    /** What the setters need to know about an entry, in flat form. */
    lemma EntryFacts(e: IfEntry)
      requires Valid() && Has(e)
      ensures Stored() && Threaded(model) && WF(model)
      ensures NoDup(table) && e.id < |model.info| == |table|
      ensures |model.master.up| == |model.link.up| == |model.peer| == |model.marks| == |table|
      ensures e.master != null <==> model.master.up[e.id].Some?
      ensures e.link != null <==> model.link.up[e.id].Some?
      ensures e.master == At(table, model.master.up[e.id]) && e.link == At(table, model.link.up[e.id])
      ensures this in Repr && store in Repr && e in Repr
      ensures forall l :: l in store.members ==> l in Repr
      ensures forall n :: n in store.nodes ==> n in Repr
    {
      Numbers(table, spaces, model);
    }

    /** What one setter call does to the model, in steps. */
    lemma SetterSteps(g: Graph, kind: nat, t: Option<nat>, x: nat)
      requires WF(g) && x < |g.info| && Id(g, t) && (kind == REV_MASTER || kind == REV_LINK)
      ensures var d := SetRel(g, kind, None, x); var h := SetRel(g, kind, t, x);
        && WF(d) && WF(h) && |d.info| == |g.info|
        && (RelOf(g, kind).up[x].None? ==> d == g)
        && RelOf(d, kind).up[x].None?
        && h == SetRel(d, kind, t, x) && (t.None? ==> h == d)
        && RelOf(h, kind).up == RelOf(g, kind).up[x := t]
        && |RelOf(g, kind).up| == |g.info|
        && h == if kind == REV_MASTER then g.(master := h.master) else g.(link := h.link)
    {
      SetRelColumns(g, kind, t, x);
      SetRelColumns(g, kind, None, x);
    }

    /** master_set */
    method MasterSet(master: IfEntry?, masterOf: IfEntry)
      requires Valid() && Has(masterOf) && (master != null ==> Has(master))
      modifies Repr
      ensures Valid() && Repr == old(Repr) && table == old(table) && spaces == old(spaces)
      ensures model == SetRel(old(model), REV_MASTER, Ref(master), masterOf.id)
    {
      hide Stored, Threaded, WF, Shape, Linked, SetRel, ListStore.Valid, MasterFields, LinkFields, PeerFields,
        MarkFields, SpaceFields, NoDup;
      ghost var x := masterOf.id;
      ghost var g := model;
      EntryFacts(masterOf);
      if master != null {
        EntryFacts(master);
      }
      SetterSteps(g, REV_MASTER, Ref(master), x);
      ghost var d := SetRel(g, REV_MASTER, None, x);
      ghost var h := SetRel(g, REV_MASTER, Ref(master), x);
      if masterOf.master != null {
        HookOff(masterOf.revMasterNode, REV_MASTER, x);
      }
      PutMaster(masterOf, master, x, h);
      if masterOf.master != null {
        HookOn(masterOf.master.revMaster, masterOf.revMasterNode, REV_MASTER, x, master.id, d);
      }
    }

    /** link_set */
    method LinkSet(link: IfEntry?, entry: IfEntry?)
      requires Valid() && (entry != null ==> Has(entry)) && (link != null ==> Has(link))
      modifies Repr
      ensures Valid() && Repr == old(Repr) && table == old(table) && spaces == old(spaces)
      ensures model == if entry == null then old(model) else SetRel(old(model), REV_LINK, Ref(link), entry.id)
    {
      hide Stored, Threaded, WF, Shape, Linked, SetRel, ListStore.Valid, MasterFields, LinkFields, PeerFields,
        MarkFields, SpaceFields, NoDup;
      if entry == null {
        return;
      }
      ghost var x := entry.id;
      ghost var g := model;
      EntryFacts(entry);
      if link != null {
        EntryFacts(link);
      }
      SetterSteps(g, REV_LINK, Ref(link), x);
      ghost var d := SetRel(g, REV_LINK, None, x);
      ghost var h := SetRel(g, REV_LINK, Ref(link), x);
      if entry.link != null {
        HookOff(entry.revLinkNode, REV_LINK, x);
      }
      PutLink(entry, link, x, h);
      if entry.link != null {
        HookOn(entry.link.revLink, entry.revLinkNode, REV_LINK, x, link.id, d);
      }
    }

    method PutPeer(e: IfEntry, p: IfEntry?)
      requires Stored() && Has(e) && NoDup(table) && (p != null ==> Has(p))
      modifies e`peer, this`model
      ensures Stored() && e.peer == p
      ensures |old(model.peer)| == |table|
      ensures model == old(model).(peer := old(model.peer)[e.id := Ref(p)])
    {
      hide MasterFields, LinkFields, MarkFields, SpaceFields, ListStore.Valid;
      model := model.(peer := model.peer[e.id := Ref(p)]);
      e.peer := p;
    }

    /** What peer_set needs to know. */
    lemma PeerFacts(e: IfEntry)
      requires Valid() && Has(e)
      ensures Stored() && Threaded(model) && WF(model) && NoDup(table)
      ensures e.id < |model.peer| == |table| == |model.info|
      ensures InRange(model.peer)
      ensures Numbered() && forall i {:trigger table[i]} :: 0 <= i < |table| ==> table[i] in Repr
      ensures e in Repr
    {
      Numbers(table, spaces, model);
    }

    lemma PeerOf(e: IfEntry)
      requires Stored() && Has(e) && InRange(model.peer)
      requires Numbered()
      ensures e.id < |model.peer| == |table|
      ensures Ref(e.peer) == model.peer[e.id] && (e.peer != null ==> Has(e.peer))
    {
    }

    /** One half of peer_set. */
    method PeerHalf(e: IfEntry, p: IfEntry?)
      requires Stored() && Has(e) && NoDup(table) && (p != null ==> Has(p)) && InRange(model.peer)
      requires Numbered()
      modifies table`peer, this`model
      ensures Stored()
      ensures |old(model.peer)| == |table|
      ensures model == old(model).(peer := Repoint(old(model.peer), Some(e.id), Ref(p)))
    {
      hide MasterFields, LinkFields, PeerFields, MarkFields, SpaceFields, ListStore.Valid, Stored;
      PeerOf(e);
      if e.peer != null {
        PutPeer(e.peer, null);
      }
      PutPeer(e, p);
    }

    /** peer_set */
    method PeerSet(first: IfEntry?, second: IfEntry?)
      requires Valid() && (first != null ==> Has(first)) && (second != null ==> Has(second))
      modifies Repr
      ensures Valid() && Repr == old(Repr) && table == old(table) && spaces == old(spaces)
      ensures model == Pair(old(model), Ref(first), Ref(second))
    {
      hide Stored, Threaded, WF, Shape, Linked, Pair, ListStore.Valid, MasterFields, LinkFields, PeerFields,
        MarkFields, SpaceFields, NoDup, InRange;
      ghost var g := model;
      PairSteps(first, second);
      if first != null {
        PeerHalf(first, second);
      }
      if second != null {
        PeerHalf(second, first);
      }
      SameThreads(g, model);
    }

    lemma PairSteps(first: IfEntry?, second: IfEntry?)
      requires Valid() && (first != null ==> Has(first)) && (second != null ==> Has(second))
      ensures Stored() && Threaded(model) && NoDup(table) && Numbered()
      ensures forall i {:trigger table[i]} :: 0 <= i < |table| ==> table[i] in Repr
      ensures this in Repr
      ensures InRange(model.peer) && |model.peer| == |table|
      ensures first != null ==> InRange(Repoint(model.peer, Ref(first), Ref(second)))
      ensures Pair(model, Ref(first), Ref(second)) ==
        var p1 := Repoint(model.peer, Ref(first), Ref(second));
        model.(peer := Repoint(p1, Ref(second), Ref(first)))
      ensures WF(Pair(model, Ref(first), Ref(second)))
    {
      Numbers(table, spaces, model);
    }

    /** Changes that keep relations and namespace lists keep what is threaded where. */
    lemma SameThreads(g: Graph, h: Graph)
      requires Threaded(g) && WF(h)
      requires h.info == g.info && h.master == g.master && h.link == g.link && |h.spaces| == |g.spaces|
      requires forall j :: 0 <= j < |g.spaces| ==>
        h.spaces[j].name == g.spaces[j].name && h.spaces[j].ifaces == g.spaces[j].ifaces
      ensures Threaded(h)
    {
      SameShape(table, spaces, g, h);
      forall j | 0 <= j < |spaces| ensures SpaceList(table, spaces, h.spaces, store.members, j) {
        assert SpaceList(table, spaces, g.spaces, store.members, j);
      }
    }

    // ----- the remaining fields

    lemma NsInModel(ns: NetnsEntry?)
      requires Valid() && (ns != null ==> HasNs(ns))
      ensures ns != null ==> ns.id < |model.spaces|
    {
    }

    lemma MarkFacts(e: IfEntry)
      requires Valid() && Has(e)
      ensures Stored() && Threaded(model) && WF(model) && NoDup(table) && e in Repr && this in Repr
      ensures e.id < |model.marks| == |table| == |model.info|
      ensures model.marks[e.id] == Marks(model.marks[e.id].linkNet, e.subDriver, e.weakLink, e.warnings)
      ensures model.marks[e.id].linkNet.Some? ==> model.marks[e.id].linkNet.value < |model.spaces|
      ensures e.linkNet == SpaceAt(spaces, model.marks[e.id].linkNet)
      ensures HasNs(e.ns) && e.ns in Repr && e.ns.id == model.info[e.id].ns && e.info == model.info[e.id]
    {
      Numbers(table, spaces, model);
      assert EntryShape(table, spaces, model.info, e.id);
    }

    ghost method MarksStep(e: IfEntry, m: Marks)
      requires Threaded(model) && WF(model) && e.id < |model.info|
      requires m.linkNet.Some? ==> m.linkNet.value < |model.spaces|
      modifies this`model
      ensures model == SetMarks(old(model), e.id, m) && Threaded(model)
      ensures model == old(model).(marks := old(model.marks)[e.id := m])
    {
      ghost var g := model;
      model := SetMarks(g, e.id, m);
      SameThreads(g, model);
    }

    method LinkNetSet(e: IfEntry, ns: NetnsEntry?)
      requires Valid() && Has(e) && (ns != null ==> HasNs(ns))
      modifies Repr
      ensures Valid() && Repr == old(Repr) && table == old(table) && spaces == old(spaces)
      ensures model == SetMarks(old(model), e.id, old(model).marks[e.id].(linkNet := NsRef(ns)))
    {
      hide Threaded, WF, Shape, Linked, SetMarks, ListStore.Valid, MasterFields, LinkFields, PeerFields, SpaceFields,
        NoDup;
      MarkFacts(e);
      NsInModel(ns);
      MarksStep(e, model.marks[e.id].(linkNet := NsRef(ns)));
      e.linkNet := ns;
    }

    method SubDriverSet(e: IfEntry, name: string)
      requires Valid() && Has(e)
      modifies Repr
      ensures Valid() && Repr == old(Repr) && table == old(table) && spaces == old(spaces)
      ensures model == SetMarks(old(model), e.id, old(model).marks[e.id].(subDriver := Some(name)))
    {
      hide Threaded, WF, Shape, Linked, SetMarks, ListStore.Valid, MasterFields, LinkFields, PeerFields, SpaceFields,
        NoDup;
      MarkFacts(e);
      MarksStep(e, model.marks[e.id].(subDriver := Some(name)));
      e.subDriver := Some(name);
    }

    /** Sets IF_LINK_WEAK. */
    method WeakLinkSet(e: IfEntry)
      requires Valid() && Has(e)
      modifies Repr
      ensures Valid() && Repr == old(Repr) && table == old(table) && spaces == old(spaces)
      ensures model == SetMarks(old(model), e.id, old(model).marks[e.id].(weakLink := true))
    {
      hide Threaded, WF, Shape, Linked, SetMarks, ListStore.Valid, MasterFields, LinkFields, PeerFields, SpaceFields,
        NoDup;
      MarkFacts(e);
      MarksStep(e, model.marks[e.id].(weakLink := true));
      e.weakLink := true;
    }

    lemma SpaceFacts(ns: NetnsEntry)
      requires Valid() && HasNs(ns)
      ensures Stored() && Threaded(model) && WF(model) && ns in Repr && this in Repr
      ensures NoDup(spaces) && ns.id < |model.spaces| == |spaces|
    {
      Numbers(table, spaces, model);
    }

    ghost method WarnStep(j: nat)
      requires Threaded(model) && WF(model) && j < |model.spaces|
      modifies this`model
      ensures model == WarnSpace(old(model), j) && Threaded(model) && WF(model)
      ensures model ==
        old(model).(spaces := old(model.spaces)[j := old(model.spaces)[j].(
          warnings := old(model.spaces)[j].warnings + 1)])
    {
      ghost var g := model;
      model := WarnSpace(g, j);
      SameThreads(g, model);
    }

    /** label_add on the warnings of a namespace. */
    method WarnNs(ns: NetnsEntry)
      requires Valid() && HasNs(ns)
      modifies Repr
      ensures Valid() && Repr == old(Repr) && table == old(table) && spaces == old(spaces)
      ensures model == WarnSpace(old(model), ns.id)
    {
      hide Threaded, WF, Shape, Linked, WarnSpace, ListStore.Valid, MasterFields, LinkFields, PeerFields, MarkFields,
        NoDup;
      SpaceFacts(ns);
      WarnStep(ns.id);
      ns.warnings := ns.warnings + 1;
    }

    method CountWarning(e: IfEntry)
      requires Valid() && Has(e)
      modifies Repr
      ensures Valid() && Repr == old(Repr) && table == old(table) && spaces == old(spaces)
      ensures model == SetMarks(old(model), e.id,
        old(model).marks[e.id].(warnings := old(model).marks[e.id].warnings + 1))
    {
      hide Threaded, WF, Shape, Linked, SetMarks, ListStore.Valid, MasterFields, LinkFields, PeerFields, SpaceFields,
        NoDup;
      MarkFacts(e);
      MarksStep(e, model.marks[e.id].(warnings := model.marks[e.id].warnings + 1));
      e.warnings := e.warnings + 1;
    }

    /** if_add_warning */
    method AddWarning(e: IfEntry)
      requires Valid() && Has(e)
      modifies Repr
      ensures Valid() && Repr == old(Repr) && table == old(table) && spaces == old(spaces)
      ensures model == Warn(old(model), e.id)
    {
      hide Valid, WF;
      MarkFacts(e);
      CountWarning(e);
      WarnNs(e.ns);
    }

    // ----- growing the graph

    /** if_create: the entry exists but nothing refers to it yet. */
    method NewEntry(ns: NetnsEntry, info: Info) returns (e: IfEntry)
      requires Stored()
      modifies store`members, store`free, store`nodes, this`Repr
      ensures Stored() && fresh(e) && fresh(Repr - old(Repr)) && old(Repr) <= Repr && e in Repr
      ensures NewShape(e, |table|) && e.ns == ns && e.info == info
      ensures fresh(e.revMaster) && fresh(e.revLink)
      ensures e.master == null && e.link == null && e.peer == null && e.linkNet == null
      ensures e.subDriver == None && !e.weakLink && e.warnings == 0
      ensures store.members == old(store.members)[e.revMaster := []][e.revLink := []]
      ensures store.free == old(store.free) + {e.n, e.revMasterNode, e.revLinkNode}
      ensures forall l :: l in store.members ==> l in Repr
      ensures forall n :: n in store.nodes ==> n in Repr
    {
      hide MasterFields, LinkFields, PeerFields, MarkFields, SpaceFields, ListStore.Valid;
      e := NewIfEntry(store, |table|, ns, info);
      Repr := Repr + {e, e.n, e.revMasterNode, e.revLinkNode, e.revMaster, e.revLink}
        + {e.revMaster.head, e.revMaster.tail, e.revLink.head, e.revLink.tail};
    }

    /** The new entry takes the next number, and the model a new row. */
    method Enter(e: IfEntry, ghost h: Graph)
      requires Stored() && e in Repr
      requires |h.master.up| == |h.link.up| == |h.peer| == |h.marks| == |table| + 1
      requires h.master.up == model.master.up + [None] && h.link.up == model.link.up + [None]
      requires h.peer == model.peer + [None] && h.marks == model.marks + [FRESH_MARKS]
      requires |h.spaces| == |model.spaces|
      requires forall j :: 0 <= j < |h.spaces| ==>
        h.spaces[j].warnings == model.spaces[j].warnings && h.spaces[j].ids == model.spaces[j].ids
      requires InRange(model.master.up) && InRange(model.link.up) && InRange(model.peer)
      requires e.master == null && e.link == null && e.peer == null && e.linkNet == null
      requires e.subDriver == None && !e.weakLink && e.warnings == 0
      modifies this`table, this`model
      ensures Stored() && table == old(table) + [e] && model == h
    {
      hide ListStore.Valid;
      table := table + [e];
      model := h;
    }

    lemma GrowFacts(ns: NetnsEntry, info: Info)
      requires Valid() && HasNs(ns) && info.ns == ns.id
      ensures Stored() && Threaded(model) && WF(model) && this in Repr && store in Repr
      ensures info.ns < |model.spaces| == |spaces| && spaces[info.ns] == ns
      ensures |model.info| == |table| && ns.ifaces in store.members
      ensures InRange(model.master.up) && InRange(model.link.up) && InRange(model.peer)
      ensures forall l :: l in store.members ==> l in Repr && allocated(l)
      ensures forall n :: n in store.nodes ==> n in Repr
    {
      assert SpaceList(table, spaces, model.spaces, store.members, ns.id);
    }

    lemma GrowColumns(g: Graph, i: Info)
      requires WF(g) && i.ns < |g.spaces|
      ensures var h := GrowIface(g, i);
        && h.master.up == g.master.up + [None] && h.link.up == g.link.up + [None]
        && h.peer == g.peer + [None] && h.marks == g.marks + [FRESH_MARKS]
        && |h.spaces| == |g.spaces| && |g.master.up| == |g.link.up| == |g.peer| == |g.marks| == |g.info|
        && (forall j :: 0 <= j < |h.spaces| ==>
          h.spaces[j].warnings == g.spaces[j].warnings && h.spaces[j].ids == g.spaces[j].ids)
    {
    }

    lemma GrownThreads(ns: NetnsEntry, info: Info, g: Graph, table0: seq<IfEntry>, members: map<List, seq<Node>>,
                       free: set<Node>, e: IfEntry)
      requires WF(g) && Shape(table0, spaces, g) && Linked(netnsList, table0, spaces, g, members, free)
      requires info.ns < |spaces| && spaces[info.ns] == ns && e.info == info && e.ns == ns
      requires NewShape(e, |table0|) && e.revMaster !in members && e.revLink !in members
      requires table == table0 + [e] && ns.ifaces in members
      requires var m := members[e.revMaster := []][e.revLink := []];
        store.members == m[ns.ifaces := m[ns.ifaces] + [e.n]]
      requires store.free == free + {e.n, e.revMasterNode, e.revLinkNode} - {e.n}
      ensures Threaded(GrowIface(g, info))
    {
      Grown(netnsList, table0, spaces, g, info, members, free, e);
    }

    /** A new interface at the end of the list of its namespace. */
    method AddIface(ns: NetnsEntry, info: Info) returns (e: IfEntry)
      requires Valid() && HasNs(ns) && info.ns == ns.id
      modifies Repr
      ensures Valid() && fresh(Repr - old(Repr)) && old(Repr) <= Repr && fresh(e)
      ensures table == old(table) + [e] && spaces == old(spaces) && e.id == |old(table)|
      ensures model == GrowIface(old(model), info)
    {
      hide Stored, WF, Shape, Linked, GrowIface, ListStore.Valid, MasterFields, LinkFields, PeerFields, MarkFields,
        SpaceFields;
      ghost var g, table0, members, free := model, table, store.members, store.free;
      GrowFacts(ns, info);
      GrowColumns(model, info);
      e := NewEntry(ns, info);
      Enter(e, GrowIface(model, info));
      Thread(ns.ifaces, e.n);
      GrownThreads(ns, info, g, table0, members, free, e);
    }

    lemma GrowSpaceFacts(name: Option<string>)
      requires Valid()
      ensures Stored() && Threaded(model) && WF(model) && this in Repr && store in Repr
      ensures |model.spaces| == |spaces| && netnsList in store.members
      ensures forall l :: l in store.members ==> l in Repr && allocated(l)
      ensures forall n :: n in store.nodes ==> n in Repr
      ensures forall n :: n in store.free ==> allocated(n)
      ensures GrowSpace(model, name) == model.(spaces := model.spaces + [Space(name, [], [], 0)])
      ensures |model.marks| == |table| && InRangeMarks(model)
      ensures forall j, k :: 0 <= j < |model.spaces| && 0 <= k < |model.spaces[j].ids| ==>
        model.spaces[j].ids[k].ns < |model.spaces|
    {
    }

    ghost predicate InRangeMarks(g: Graph) {
      forall i :: 0 <= i < |g.marks| && g.marks[i].linkNet.Some? ==> g.marks[i].linkNet.value < |g.spaces|
    }

    lemma MarksKept(spaces0: seq<NetnsEntry>, ns: NetnsEntry)
      requires MarkFields(table, spaces0, model.marks) && InRangeMarks(model) && |model.spaces| == |spaces0|
      ensures MarkFields(table, spaces0 + [ns], model.marks)
    {
    }

    /** The new namespace takes the next number, and the model a new row. */
    method EnterNetns(ns: NetnsEntry, ghost name: Option<string>)
      requires Stored() && ns in Repr && |model.marks| == |table| && InRangeMarks(model)
      requires forall j, k :: 0 <= j < |model.spaces| && 0 <= k < |model.spaces[j].ids| ==>
        model.spaces[j].ids[k].ns < |model.spaces|
      requires ns.ids == [] && ns.warnings == 0
      modifies this`spaces, this`model
      ensures Stored() && spaces == old(spaces) + [ns]
      ensures model == old(model).(spaces := old(model.spaces) + [Space(name, [], [], 0)])
    {
      hide ListStore.Valid, MasterFields, LinkFields, PeerFields;
      MarksKept(spaces, ns);
      spaces := spaces + [ns];
      model := model.(spaces := model.spaces + [Space(name, [], [], 0)]);
    }

    /** A new namespace at the end of the list of namespaces. */
    method AddNetns(name: Option<string>) returns (ns: NetnsEntry)
      requires Valid()
      modifies Repr
      ensures Valid() && fresh(Repr - old(Repr)) && old(Repr) <= Repr && fresh(ns)
      ensures spaces == old(spaces) + [ns] && table == old(table) && ns.id == |old(spaces)|
      ensures model == GrowSpace(old(model), name)
    {
      hide Stored, WF, Shape, Linked, GrowSpace, ListStore.Valid, MasterFields, LinkFields, PeerFields, MarkFields,
        SpaceFields;
      ghost var g, spaces0, members, free := model, spaces, store.members, store.free;
      GrowSpaceFacts(name);
      ns := NewNetns(name);
      EnterNetns(ns, name);
      Thread(netnsList, ns.n);
      GrownSpacesThreads(name, g, spaces0, members, free, ns);
    }

    method NewNetns(name: Option<string>) returns (ns: NetnsEntry)
      requires Stored()
      modifies store`members, store`free, store`nodes, this`Repr
      ensures Stored() && fresh(ns) && fresh(Repr - old(Repr)) && old(Repr) <= Repr && ns in Repr
      ensures ns.id == |spaces| && ns.name == name && ns.n.role == NETNS_LIST && ns.n.holder == |spaces|
      ensures ns.ifaces.tag == Tag(IFACES, |spaces|) && ns.ids == [] && ns.warnings == 0
      ensures fresh(ns.ifaces) && fresh(ns.n)
      ensures store.members == old(store.members)[ns.ifaces := []]
      ensures store.free == old(store.free) + {ns.n}
      ensures forall l :: l in store.members ==> l in Repr
      ensures forall n :: n in store.nodes ==> n in Repr
    {
      hide MasterFields, LinkFields, PeerFields, MarkFields, SpaceFields, ListStore.Valid;
      ns := NewNetnsEntry(store, |spaces|, name);
      Repr := Repr + {ns, ns.n, ns.ifaces, ns.ifaces.head, ns.ifaces.tail};
    }

    lemma GrownSpacesThreads(name: Option<string>, g: Graph, spaces0: seq<NetnsEntry>,
                             members: map<List, seq<Node>>, free: set<Node>, ns: NetnsEntry)
      requires WF(g) && Shape(table, spaces0, g) && Linked(netnsList, table, spaces0, g, members, free)
      requires ns.id == |spaces0| && ns.name == name && ns.n.role == NETNS_LIST && ns.n.holder == |spaces0|
      requires ns.ifaces.tag == Tag(IFACES, |spaces0|) && ns.ifaces !in members && ns.n !in free
      requires spaces == spaces0 + [ns] && netnsList in members
      requires store.members == members[ns.ifaces := []][netnsList := members[ns.ifaces := []][netnsList] + [ns.n]]
      requires store.free == free + {ns.n} - {ns.n}
      ensures Threaded(GrowSpace(g, name))
    {
      GrownSpaces(netnsList, table, spaces0, g, name, members, free, ns);
    }

    lemma IdFacts(ns: NetnsEntry, target: NetnsEntry, id: int)
      requires Valid() && HasNs(ns) && HasNs(target)
      ensures Stored() && Threaded(model) && WF(model) && NoDup(spaces) && this in Repr && ns in Repr
      ensures |model.spaces| == |spaces|
      ensures var h := GrowIds(model, ns.id, NsId(id, target.id));
        && WF(h) && Threaded(h)
        && h == model.(spaces := model.spaces[ns.id := model.spaces[ns.id].(
             ids := model.spaces[ns.id].ids + [NsId(id, target.id)])])
    {
      Numbers(table, spaces, model);
      SameThreads(model, GrowIds(model, ns.id, NsId(id, target.id)));
    }

    /** One netnsid learnt for namespace `ns`. */
    method AddNsId(ns: NetnsEntry, target: NetnsEntry, id: int)
      requires Valid() && HasNs(ns) && HasNs(target)
      modifies Repr
      ensures Valid() && Repr == old(Repr) && table == old(table) && spaces == old(spaces)
      ensures model == GrowIds(old(model), ns.id, NsId(id, target.id))
    {
      hide Threaded, WF, Shape, Linked, GrowIds, ListStore.Valid, MasterFields, LinkFields, PeerFields, MarkFields,
        NoDup;
      IdFacts(ns, target, id);
      model := GrowIds(model, ns.id, NsId(id, target.id));
      ns.ids := ns.ids + [NetnsId(id, target)];
    }

    // ----- reading

    /** Everything a callback may read about an entry. */
    lemma View(e: IfEntry)
      requires Valid() && Has(e)
      ensures WF(model) && |table| == |model.info| && |spaces| == |model.spaces|
      ensures e.id < |model.info| && e.info == model.info[e.id]
      ensures HasNs(e.ns) && e.ns.id == e.info.ns && e.ns.name == model.spaces[e.info.ns].name
      ensures Ref(e.master) == model.master.up[e.id] && (e.master != null ==> Has(e.master))
      ensures e.master != null ==> e.master.info == model.info[e.master.id]
      ensures Ref(e.link) == model.link.up[e.id] && (e.link != null ==> Has(e.link))
      ensures Ref(e.peer) == model.peer[e.id] && (e.peer != null ==> Has(e.peer))
      ensures e.subDriver == model.marks[e.id].subDriver
    {
      Numbers(table, spaces, model);
      assert EntryShape(table, spaces, model.info, e.id) && SpaceShape(spaces, model.spaces, e.info.ns);
      if e.master != null {
        assert EntryShape(table, spaces, model.info, e.master.id);
      }
    }

    /** The namespace entry `e` points to. */
    lemma LinkNetView(e: IfEntry)
      requires Valid() && Has(e)
      ensures e.id < |model.marks| && HasNs(e.ns) && e.info == model.info[e.id] && e.ns.id == e.info.ns
      ensures e.linkNet == null <==> model.marks[e.id].linkNet.None?
      ensures e.linkNet != null ==> HasNs(e.linkNet) && Some(e.linkNet.id) == model.marks[e.id].linkNet
    {
      View(e);
      MarkFacts(e);
      if e.linkNet != null {
        assert SpaceShape(spaces, model.spaces, model.marks[e.id].linkNet.value);
      }
    }

    // ----- walking lists

    /** The node a walk over the interfaces of `ns` stands on after `k` steps. */
    ghost function Cursor(ns: NetnsEntry, k: nat): Node
      reads this
    {
      if ns.id < |model.spaces| && k < |model.spaces[ns.id].ifaces| && model.spaces[ns.id].ifaces[k] < |table|
      then table[model.spaces[ns.id].ifaces[k]].n
      else ns.ifaces.tail
    }

    /** The walk stands on entry `k` of `ns`, or on the last sentinel. */
    ghost predicate Stands(ns: NetnsEntry, k: nat, n: Node?)
      reads this, n
    {
      && n != null && n == Cursor(ns, k) && ns.id < |model.spaces|
      && var ids := model.spaces[ns.id].ifaces;
      && k <= |ids| && (n.next == null <==> k == |ids|)
      && (k < |ids| ==>
        ids[k] < |table| && table[ids[k]].id == ids[k] && n.holder == ids[k] && n.next == Cursor(ns, k + 1))
    }

    lemma Walk(ns: NetnsEntry, k: nat)
      requires Valid() && HasNs(ns)
      ensures WF(model) && ns.id < |model.spaces| && |table| == |model.info|
      ensures k <= |model.spaces[ns.id].ifaces| ==> Stands(ns, k, Cursor(ns, k))
      ensures ns.ifaces.head.next == Cursor(ns, 0)
    {
      hide WF, MasterFields, LinkFields, PeerFields, MarkFields, SpaceFields, RevLists, Covered;
      Numbers(table, spaces, model);
      var ids := model.spaces[ns.id].ifaces;
      var l := ns.ifaces;
      assert SpaceList(table, spaces, model.spaces, store.members, ns.id) && store.Sound(l);
      assert l.nodes[0].next == l.nodes[1];
      if k < |ids| {
        assert ids[k] < |table| && EntryShape(table, spaces, model.info, ids[k]);
        assert l.nodes[k + 1].next == l.nodes[k + 2];
      }
    }

    ghost function NsCursor(j: nat): Node
      reads this
    {
      if j < |spaces| then spaces[j].n else netnsList.tail
    }

    /** The walk stands on namespace `j`, or on the last sentinel. */
    ghost predicate StandsNs(j: nat, n: Node?)
      reads this, n
    {
      && n != null && n == NsCursor(j) && j <= |spaces| && (n.next == null <==> j == |spaces|)
      && (j < |spaces| ==> spaces[j].id == j && n.holder == j && n.next == NsCursor(j + 1))
    }

    lemma WalkNs(j: nat)
      requires Valid()
      ensures |model.spaces| == |spaces|
      ensures netnsList.head.next == NsCursor(0)
      ensures j <= |spaces| ==> StandsNs(j, NsCursor(j))
    {
      Numbers(table, spaces, model);
      var l := netnsList;
      assert store.Sound(l);
      assert l.nodes[0].next == l.nodes[1];
      if j < |spaces| {
        assert SpaceShape(spaces, model.spaces, j);
        assert l.nodes[j + 1].next == l.nodes[j + 2];
      }
    }

    ghost function RevCursor(e: IfEntry, kind: nat, k: nat): Node
      reads this
    {
      var d := RelOf(model, kind).down;
      if e.id < |d| && k < |d[e.id]| && d[e.id][k] < |table| then NodeOf(table, kind, d[e.id][k])
      else RevListOf(e, kind).tail
    }

    /** The walk stands on member `k` of a reverse list of `e`, or on the last sentinel. */
    ghost predicate StandsRev(e: IfEntry, kind: nat, k: nat, n: Node?)
      reads this, n
    {
      && n != null && n == RevCursor(e, kind, k) && e.id < |RelOf(model, kind).down|
      && var ids := RelOf(model, kind).down[e.id];
      && k <= |ids| && (n.next == null <==> k == |ids|)
      && (k < |ids| ==>
        ids[k] < |table| && table[ids[k]].id == ids[k] && n.holder == ids[k] && n.next == RevCursor(e, kind, k + 1))
    }

    lemma WalkRev(e: IfEntry, kind: nat, k: nat)
      requires Valid() && Has(e) && (kind == REV_MASTER || kind == REV_LINK)
      ensures WF(model) && e.id < |RelOf(model, kind).down| && |table| == |model.info|
      ensures k <= |RelOf(model, kind).down[e.id]| ==> StandsRev(e, kind, k, RevCursor(e, kind, k))
      ensures RevListOf(e, kind).head.next == RevCursor(e, kind, 0)
    {
      hide WF, MasterFields, LinkFields, PeerFields, MarkFields, SpaceFields, SpaceLists, SpaceShape, Covered;
      Numbers(table, spaces, model);
      var ids := RelOf(model, kind).down[e.id];
      var l := RevListOf(e, kind);
      assert RevList(table, kind, RelOf(model, kind), store.members, e.id) && store.Sound(l);
      assert l.nodes[0].next == l.nodes[1];
      if k < |ids| {
        assert ids[k] < |table| && EntryShape(table, spaces, model.info, ids[k]);
        assert l.nodes[k + 1].next == l.nodes[k + 2];
      }
    }
  }

  ghost function NsRef(ns: NetnsEntry?): Option<nat> {
    if ns == null then None else Some(ns.id)
  }
}
