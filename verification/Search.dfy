/** The searches the passes run: each callback's score as a function of the graph, the
    candidates in list order, and what a search leaves behind in the graph. */
module Search {
  import opened Common
  import opened Match
  import opened Model

  /** The parts of an Open vSwitch interface its search callback looks at: its name, whether
      its type is "internal", whether its bridge uses the netdev datapath, the entry of the
      bridge's main interface once known, and what the kernel answers to vport queries. */
  datatype OvsKey = OvsKey(name: string, internal: bool, netdev: bool, main: Option<nat>, vports: set<(nat, string)>)

  datatype Query =
    | ByMaster(slave: nat)
    | ByLink(slave: nat)
    | ByPeer(end: nat)
    | ByAddress(addr: Address)
    | ByPatch(peer: Option<string>)
    | ByOvs(key: OvsKey)

  ghost predicate Sane(g: Graph, q: Query) {
    match q
    case ByMaster(s) => s < |g.info|
    case ByLink(s) => s < |g.info|
    case ByPeer(s) => s < |g.info|
    case ByAddress(_) => true
    case ByPatch(_) => true
    case ByOvs(k) => Id(g, k.main)
  }

  /** match_master and match_link, for the index in question. */
  ghost function IndexScore(g: Graph, index: nat, slave: nat, e: nat): int
    requires slave < |g.info| && e < |g.info|
  {
    if g.info[e].ifIndex != index then 0
    else if g.info[e].ns == g.info[slave].ns then 2
    else 1
  }

  /** match_peer */
  ghost function PeerScore(g: Graph, end: nat, e: nat): int
    requires WF(g) && end < |g.info| && e < |g.info|
  {
    if g.info[e].ifIndex != g.info[end].peerIndex || g.info[e].peerIndex != g.info[end].ifIndex
       || g.info[e].driver != Some("veth") then 0
    else if g.peer[e].Some? && g.peer[e] != Some(end) then 0
    else if g.info[e].ns == g.info[end].ns then 2
    else 1
  }

  /** The entry hangs under something other than the ovs-system device. */
  ghost predicate ForeignMaster(g: Graph, e: nat)
    requires WF(g) && e < |g.info|
  {
    g.master.up[e].Some? && g.info[g.master.up[e].value].name != "ovs-system"
  }

  /** link_iface_search */
  ghost function OvsScore(g: Graph, k: OvsKey, e: nat): int
    requires WF(g) && Id(g, k.main) && e < |g.info|
  {
    if k.main.Some? && !k.netdev && ForeignMaster(g, e) then 0
    else if k.name != g.info[e].name then 0
    else if !k.netdev && k.internal && g.info[e].driver != Some("openvswitch") then 0
    else if !k.netdev && k.main.Some? && g.master.up[e].None?
            && (g.info[k.main.value].ns, g.info[e].name) !in k.vports then 0
    else if k.netdev && !k.internal then 0
    else if k.netdev && (g.info[e].driver != Some("tun") || g.marks[e].subDriver.Some?) then 0
    else
      match k.main
      case Some(m) => if g.info[m].ns == g.info[e].ns then 2 else 1
      case None => if g.spaces[g.info[e].ns].name.None? then 2 else 1
  }

  ghost function Score(g: Graph, q: Query, e: nat): (r: int)
    requires WF(g) && Sane(g, q) && e < |g.info|
    ensures 0 <= r <= 2
  {
    match q
    case ByMaster(s) => IndexScore(g, g.info[s].masterIndex, s, e)
    case ByLink(s) => IndexScore(g, g.info[s].linkIndex, s, e)
    case ByPeer(s) => PeerScore(g, s, e)
    case ByAddress(a) => if g.info[e].up && a in g.info[e].addrs then 1 else 0
    case ByPatch(p) => if p == Some(g.info[e].name) && g.info[e].internal then 1 else 0
    case ByOvs(k) => OvsScore(g, k, e)
  }

  /** Does the callback write to the entries it accepts? */
  predicate Marking(q: Query) {
    q.ByOvs? && q.key.netdev
  }

  /** What one call of the callback does to the graph: only link_iface_search on a netdev
      datapath changes anything, and only on entries it accepts. */
  ghost function Touch(g: Graph, q: Query, e: nat): (h: Graph)
    requires WF(g) && Sane(g, q) && e < |g.info|
    ensures WF(h) && h == g.(marks := h.marks) && Sane(h, q)
  {
    if Marking(q) && Score(g, q, e) > 0
    then SetMarks(g, e, g.marks[e].(subDriver := Some("openvswitch")))
    else g
  }

  /** The calls made while walking `ids`. */
  ghost function Visit(g: Graph, q: Query, excl: Option<nat>, ids: seq<nat>): (h: Graph)
    requires WF(g) && Sane(g, q) && AllBelow(ids, |g.info|)
    ensures WF(h) && h == g.(marks := h.marks) && Sane(h, q)
    decreases |ids|
  {
    if ids == [] then g
    else
      var i := ids[|ids| - 1];
      var h := Visit(g, q, excl, ids[..|ids| - 1]);
      if excl == Some(i) then h else Touch(h, q, i)
  }

  /** The candidates among `ids`, with the scores they have in `g`. */
  ghost function Cands(g: Graph, q: Query, excl: Option<nat>, ids: seq<nat>): (c: seq<Cand>)
    requires WF(g) && Sane(g, q) && AllBelow(ids, |g.info|)
  {
    if ids == [] then []
    else if excl == Some(ids[0]) then Cands(g, q, excl, ids[1..])
    else [Cand(ids[0], Score(g, q, ids[0]))] + Cands(g, q, excl, ids[1..])
  }

  lemma SpaceBelow(g: Graph, j: nat)
    requires WF(g) && j < |g.spaces|
    ensures AllBelow(g.spaces[j].ifaces, |g.info|)
  {
    forall k | 0 <= k < |g.spaces[j].ifaces| ensures g.spaces[j].ifaces[k] < |g.info| {
      assert g.spaces[j].ifaces[k] in g.spaces[j].ifaces;
    }
  }

  /** Candidates namespace by namespace, from namespace `j` on. */
  ghost function CandLists(g: Graph, q: Query, excl: Option<nat>, j: nat): seq<seq<Cand>>
    requires WF(g) && Sane(g, q) && j <= |g.spaces|
    decreases |g.spaces| - j
  {
    if j == |g.spaces| then []
    else SpaceBelow(g, j); [Cands(g, q, excl, g.spaces[j].ifaces)] + CandLists(g, q, excl, j + 1)
  }

  /** All interfaces in the order the passes walk them, up to namespace `j`. */
  ghost function OrderTo(g: Graph, j: nat): (ids: seq<nat>)
    requires WF(g) && j <= |g.spaces|
    ensures AllBelow(ids, |g.info|)
  {
    if j == 0 then []
    else
      SpaceBelow(g, j - 1);
      OrderTo(g, j - 1) + g.spaces[j - 1].ifaces
  }

  ghost function Order(g: Graph): (ids: seq<nat>)
    requires WF(g)
    ensures AllBelow(ids, |g.info|)
  {
    OrderTo(g, |g.spaces|)
  }

  // ----- a call only matters for the entry it is made on

  lemma TouchScore(g: Graph, q: Query, e: nat, x: nat)
    requires WF(g) && Sane(g, q) && e < |g.info| && x < |g.info| && x != e
    ensures Score(Touch(g, q, e), q, x) == Score(g, q, x)
  {
  }

  lemma {:induction false} VisitScore(g: Graph, q: Query, excl: Option<nat>, ids: seq<nat>, x: nat)
    requires WF(g) && Sane(g, q) && AllBelow(ids, |g.info|) && x < |g.info| && x !in ids
    ensures Score(Visit(g, q, excl, ids), q, x) == Score(g, q, x)
    decreases |ids|
  {
    if ids != [] {
      var init := ids[..|ids| - 1];
      VisitScore(g, q, excl, init, x);
      TouchScore(Visit(g, q, excl, init), q, ids[|ids| - 1], x);
    }
  }

  lemma {:induction false} VisitPlain(g: Graph, q: Query, excl: Option<nat>, ids: seq<nat>)
    requires WF(g) && Sane(g, q) && AllBelow(ids, |g.info|) && !Marking(q)
    ensures Visit(g, q, excl, ids) == g
    decreases |ids|
  {
    if ids != [] {
      VisitPlain(g, q, excl, ids[..|ids| - 1]);
    }
  }

  /** The walk meets every interface exactly once. */
  lemma {:induction false} OrderToMembers(g: Graph, j: nat)
    requires WF(g) && j <= |g.spaces|
    ensures NoDup(OrderTo(g, j))
    ensures forall i {:trigger i in OrderTo(g, j)} :: i in OrderTo(g, j) <==> 0 <= i < |g.info| && g.info[i].ns < j
  {
    if j > 0 {
      OrderToMembers(g, j - 1);
      SpaceBelow(g, j - 1);
      var a := OrderTo(g, j - 1);
      var b := g.spaces[j - 1].ifaces;
      forall x, y | 0 <= x < y < |a + b| ensures (a + b)[x] != (a + b)[y] {
        if x < |a| <= y {
          assert a[x] in a && b[y - |a|] in b;
        }
      }
    }
  }

  lemma OrderMembers(g: Graph)
    requires WF(g)
    ensures NoDup(Order(g))
    ensures forall i {:trigger i in Order(g)} :: i in Order(g) <==> 0 <= i < |g.info|
  {
    OrderToMembers(g, |g.spaces|);
  }

  // ----- the candidates of a whole search

  lemma {:induction false} CandsConcat(g: Graph, q: Query, excl: Option<nat>, a: seq<nat>, b: seq<nat>)
    requires WF(g) && Sane(g, q) && AllBelow(a, |g.info|) && AllBelow(b, |g.info|)
    ensures AllBelow(a + b, |g.info|)
    ensures Cands(g, q, excl, a + b) == Cands(g, q, excl, a) + Cands(g, q, excl, b)
  {
    if a == [] {
      assert a + b == b;
    } else {
      assert (a + b)[1..] == a[1..] + b;
      CandsConcat(g, q, excl, a[1..], b);
    }
  }

  lemma {:induction false} CandListsFlat(g: Graph, q: Query, excl: Option<nat>, j: nat)
    requires WF(g) && Sane(g, q) && j <= |g.spaces|
    ensures Cands(g, q, excl, OrderTo(g, j)) + Flatten(CandLists(g, q, excl, j)) == Cands(g, q, excl, Order(g))
    decreases |g.spaces| - j
  {
    hide WF, Score, Sane, Cands;
    if j < |g.spaces| {
      SpaceBelow(g, j);
      CandsConcat(g, q, excl, OrderTo(g, j), g.spaces[j].ifaces);
      CandListsFlat(g, q, excl, j + 1);
      var cs := CandLists(g, q, excl, j);
      assert cs[1..] == CandLists(g, q, excl, j + 1);
      Regroup(Cands(g, q, excl, OrderTo(g, j)), cs[0], Flatten(cs[1..]));
    } else {
      assert Cands(g, q, excl, Order(g)) + [] == Cands(g, q, excl, Order(g));
    }
  }

  lemma {:induction false} CandsMembers(g: Graph, q: Query, excl: Option<nat>, ids: seq<nat>)
    requires WF(g) && Sane(g, q) && AllBelow(ids, |g.info|)
    ensures forall k :: 0 <= k < |Cands(g, q, excl, ids)| ==>
      var c := Cands(g, q, excl, ids)[k];
      c.id in ids && excl != Some(c.id) && c.id < |g.info| && c.score == Score(g, q, c.id)
    ensures forall i {:trigger i in ids} :: i in ids && excl != Some(i) ==>
      Cand(i, Score(g, q, i)) in Cands(g, q, excl, ids)
  {
    if ids != [] {
      CandsMembers(g, q, excl, ids[1..]);
      assert ids == [ids[0]] + ids[1..];
    }
  }

  /** match_if over all namespaces, on the graph. */
  ghost function Search(g: Graph, mode: Mode, q: Query, excl: Option<nat>): Outcome
    requires WF(g) && Sane(g, q)
  {
    Scan(mode, CandLists(g, q, excl, 0), INIT)
  }

  /** match_if on one namespace. */
  ghost function SearchNs(g: Graph, mode: Mode, q: Query, excl: Option<nat>, j: nat): Outcome
    requires WF(g) && Sane(g, q) && j < |g.spaces|
  {
    SpaceBelow(g, j);
    ScanNs(mode, Cands(g, q, excl, g.spaces[j].ifaces), INIT)
  }

  /** No callback of this program reports an error. */
  lemma SearchSucceeds(g: Graph, q: Query, excl: Option<nat>)
    requires WF(g) && Sane(g, q)
    ensures NoErrors(Flatten(CandLists(g, q, excl, 0)))
    ensures Flatten(CandLists(g, q, excl, 0)) == Cands(g, q, excl, Order(g))
    ensures Search(g, Heuristic, q, excl).Done?
  {
    CandListsFlat(g, q, excl, 0);
    var c := Flatten(CandLists(g, q, excl, 0));
    assert Cands(g, q, excl, OrderTo(g, 0)) + c == c;
    CandsMembers(g, q, excl, Order(g));
    HeuristicMeaning(CandLists(g, q, excl, 0));
  }

  ghost function Result(g: Graph, q: Query, excl: Option<nat>): Option<nat>
    requires WF(g) && Sane(g, q)
  {
    SearchSucceeds(g, q, excl);
    Found(Search(g, Heuristic, q, excl).desc)
  }

  ghost predicate Unsure(g: Graph, q: Query, excl: Option<nat>)
    requires WF(g) && Sane(g, q)
  {
    SearchSucceeds(g, q, excl);
    Ambiguous(Search(g, Heuristic, q, excl).desc)
  }

  // ----- one step of a walk

  /** Where a scan stands after `k` of `ids`: what is left to scan, and the graph so far. */
  ghost predicate Standing(g: Graph, q: Query, mode: Mode, excl: Option<nat>, ids: seq<nat>, d0: Desc,
                           k: nat, d: Desc, h: Graph)
    requires WF(g) && Sane(g, q) && AllBelow(ids, |g.info|)
  {
    && k <= |ids|
    && h == Visit(g, q, excl, ids[..k])
    && ScanNs(mode, Cands(g, q, excl, ids), d0) == ScanNs(mode, Cands(g, q, excl, ids[k..]), d)
  }

  lemma StandingStart(g: Graph, q: Query, mode: Mode, excl: Option<nat>, ids: seq<nat>, d0: Desc)
    requires WF(g) && Sane(g, q) && AllBelow(ids, |g.info|)
    ensures Standing(g, q, mode, excl, ids, d0, 0, d0, g)
  {
    assert ids[0..] == ids;
  }

  lemma StandingEnd(g: Graph, q: Query, mode: Mode, excl: Option<nat>, ids: seq<nat>, d0: Desc, d: Desc, h: Graph)
    requires WF(g) && Sane(g, q) && AllBelow(ids, |g.info|)
    requires Standing(g, q, mode, excl, ids, d0, |ids|, d, h)
    ensures ScanNs(mode, Cands(g, q, excl, ids), d0) == Done(d) && h == Visit(g, q, excl, ids)
  {
    assert ids[..|ids|] == ids;
  }

  /** The excluded entry is stepped over. */
  lemma StandingSkip(g: Graph, q: Query, mode: Mode, excl: Option<nat>, ids: seq<nat>, d0: Desc, k: nat, d: Desc,
                     h: Graph)
    requires WF(g) && Sane(g, q) && AllBelow(ids, |g.info|)
    requires Standing(g, q, mode, excl, ids, d0, k, d, h) && k < |ids| && excl == Some(ids[k])
    ensures Standing(g, q, mode, excl, ids, d0, k + 1, d, h)
  {
    assert ids[..k + 1][..k] == ids[..k] && ids[k..][1..] == ids[k + 1..];
  }

  ghost function StepDesc(d: Desc, id: nat, res: int): Desc {
    if res > d.best then Desc(Some(id), res, 1) else if res == d.best then d.(count := d.count + 1) else d
  }

  lemma VisitStep(g: Graph, q: Query, excl: Option<nat>, ids: seq<nat>, k: nat)
    requires WF(g) && Sane(g, q) && AllBelow(ids, |g.info|) && NoDup(ids)
    requires k < |ids| && excl != Some(ids[k])
    ensures var h := Visit(g, q, excl, ids[..k]);
      && |h.info| == |g.info| && Visit(g, q, excl, ids[..k + 1]) == Touch(h, q, ids[k])
      && Score(h, q, ids[k]) == Score(g, q, ids[k])
  {
    assert ids[k] !in ids[..k];
    VisitScore(g, q, excl, ids[..k], ids[k]);
    assert ids[..k + 1][..k] == ids[..k];
  }

  lemma ScanStep(g: Graph, q: Query, mode: Mode, excl: Option<nat>, ids: seq<nat>, k: nat, d: Desc)
    requires WF(g) && Sane(g, q) && AllBelow(ids, |g.info|)
    requires k < |ids| && excl != Some(ids[k])
    ensures var res := Score(g, q, ids[k]); var d' := StepDesc(d, ids[k], res);
      ScanNs(mode, Cands(g, q, excl, ids[k..]), d) ==
        if res > d.best && mode.First? then Done(d') else ScanNs(mode, Cands(g, q, excl, ids[k + 1..]), d')
  {
    assert ids[k..][1..] == ids[k + 1..];
    var c := Cands(g, q, excl, ids[k..]);
    assert c == [Cand(ids[k], Score(g, q, ids[k]))] + Cands(g, q, excl, ids[k + 1..]);
    assert c[1..] == Cands(g, q, excl, ids[k + 1..]);
  }

  /** One call of the callback; in first-match mode the walk ends with the first improvement. */
  lemma StandingStep(g: Graph, q: Query, mode: Mode, excl: Option<nat>, ids: seq<nat>, d0: Desc, k: nat, d: Desc,
                     h: Graph)
    requires WF(g) && Sane(g, q) && AllBelow(ids, |g.info|) && NoDup(ids)
    requires Standing(g, q, mode, excl, ids, d0, k, d, h) && k < |ids| && excl != Some(ids[k])
    requires Marking(q) ==> mode.Heuristic?
    ensures WF(h) && Sane(h, q) && |h.info| == |g.info|
    ensures var res := Score(h, q, ids[k]);
      if res > d.best && mode.First?
      then ScanNs(mode, Cands(g, q, excl, ids), d0) == Done(StepDesc(d, ids[k], res))
        && Touch(h, q, ids[k]) == Visit(g, q, excl, ids)
      else Standing(g, q, mode, excl, ids, d0, k + 1, StepDesc(d, ids[k], res), Touch(h, q, ids[k]))
  {
    hide ScanNs, WF, Score, Cands, Visit, Touch, NoDup;
    VisitStep(g, q, excl, ids, k);
    ScanStep(g, q, mode, excl, ids, k, d);
    if !Marking(q) {
      VisitPlain(g, q, excl, ids[..k + 1]);
      VisitPlain(g, q, excl, ids);
    }
  }

  /** A walk over the interfaces of namespace `j` took the descriptor from `d0` to `d` and the
      graph from `g` to `h`. */
  ghost predicate ScannedNs(g: Graph, q: Query, mode: Mode, excl: Option<nat>, j: nat, d0: Desc, d: Desc, h: Graph) {
    && WF(g) && Sane(g, q) && j < |g.spaces| && AllBelow(g.spaces[j].ifaces, |g.info|)
    && ScanNs(mode, Cands(g, q, excl, g.spaces[j].ifaces), d0) == Done(d)
    && h == Visit(g, q, excl, g.spaces[j].ifaces)
  }

  // ----- the walk over all namespaces

  lemma {:induction false} VisitConcat(g: Graph, q: Query, excl: Option<nat>, a: seq<nat>, b: seq<nat>)
    requires WF(g) && Sane(g, q) && AllBelow(a, |g.info|) && AllBelow(b, |g.info|)
    ensures AllBelow(a + b, |g.info|)
    ensures Visit(g, q, excl, a + b) == Visit(Visit(g, q, excl, a), q, excl, b)
    decreases |b|
  {
    hide WF, Touch, Sane;
    if b == [] {
      assert a + b == a;
    } else {
      assert (a + b)[..|a + b| - 1] == a + b[..|b| - 1];
      VisitConcat(g, q, excl, a, b[..|b| - 1]);
    }
  }

  /** Candidates keep their scores while others are called on. */
  lemma {:induction false} VisitCands(g: Graph, q: Query, excl: Option<nat>, seen: seq<nat>, ids: seq<nat>)
    requires WF(g) && Sane(g, q) && AllBelow(seen, |g.info|) && AllBelow(ids, |g.info|)
    requires forall i :: i in ids ==> i !in seen
    ensures Cands(Visit(g, q, excl, seen), q, excl, ids) == Cands(g, q, excl, ids)
  {
    if ids != [] {
      VisitScore(g, q, excl, seen, ids[0]);
      VisitCands(g, q, excl, seen, ids[1..]);
    }
  }

  /** Where a walk over all namespaces stands before namespace `j`. */
  ghost predicate StandingAll(g: Graph, q: Query, mode: Mode, excl: Option<nat>, d0: Desc, j: nat, d: Desc, h: Graph)
    requires WF(g) && Sane(g, q)
  {
    && j <= |g.spaces|
    && h == Visit(g, q, excl, OrderTo(g, j))
    && Scan(mode, CandLists(g, q, excl, 0), d0) == Scan(mode, CandLists(g, q, excl, j), d)
  }

  lemma StandingAllStep(g: Graph, q: Query, mode: Mode, excl: Option<nat>, d0: Desc, j: nat, d: Desc, h: Graph,
                        d': Desc, h': Graph)
    requires WF(g) && Sane(g, q) && StandingAll(g, q, mode, excl, d0, j, d, h) && j < |g.spaces|
    requires ScannedNs(h, q, mode, excl, j, d, d', h')
    ensures StandingAll(g, q, mode, excl, d0, j + 1, d', h')
  {
    SpaceBelow(g, j);
    VisitConcat(g, q, excl, OrderTo(g, j), g.spaces[j].ifaces);
    OrderToMembers(g, j);
    VisitCands(g, q, excl, OrderTo(g, j), g.spaces[j].ifaces);
    var cs := CandLists(g, q, excl, j);
    assert cs[1..] == CandLists(g, q, excl, j + 1);
  }

  /** A walk over all namespaces took the descriptor from `d0` to `d` and the graph from `g` to `h`. */
  ghost predicate ScannedAll(g: Graph, q: Query, mode: Mode, excl: Option<nat>, d0: Desc, d: Desc, h: Graph) {
    && WF(g) && Sane(g, q)
    && Scan(mode, CandLists(g, q, excl, 0), d0) == Done(d)
    && h == Visit(g, q, excl, Order(g))
  }

  lemma StandingAllEnd(g: Graph, q: Query, mode: Mode, excl: Option<nat>, d0: Desc, d: Desc, h: Graph)
    requires WF(g) && Sane(g, q) && StandingAll(g, q, mode, excl, d0, |g.spaces|, d, h)
    ensures ScannedAll(g, q, mode, excl, d0, d, h)
  {
  }

  /** What a search leaves in the graph: a netdev Open vSwitch search writes the sub-driver of
      every entry it accepts, chosen or not; no other search changes anything. */
  lemma {:induction false} VisitMarks(g: Graph, q: Query, excl: Option<nat>, ids: seq<nat>, x: nat)
    requires WF(g) && Sane(g, q) && AllBelow(ids, |g.info|) && NoDup(ids) && x < |g.info|
    ensures Visit(g, q, excl, ids).marks[x] ==
      if Marking(q) && x in ids && excl != Some(x) && Score(g, q, x) > 0
      then g.marks[x].(subDriver := Some("openvswitch")) else g.marks[x]
    decreases |ids|
  {
    hide Mirror, Involution, Placed, Score, Sane;
    if ids != [] {
      var init := ids[..|ids| - 1];
      var i := ids[|ids| - 1];
      assert ids == init + [i];
      VisitMarks(g, q, excl, init, x);
      VisitScore(g, q, excl, init, i);
    }
  }

  // ----- what a heuristic search over all namespaces returns

  /** May entry `e` be returned, with the callback accepting it? */
  ghost predicate Eligible(g: Graph, q: Query, excl: Option<nat>, e: nat)
    requires WF(g) && Sane(g, q)
  {
    e < |g.info| && excl != Some(e) && Score(g, q, e) > 0
  }

  lemma {:induction false} CandsDistinct(g: Graph, q: Query, excl: Option<nat>, ids: seq<nat>)
    requires WF(g) && Sane(g, q) && AllBelow(ids, |g.info|) && NoDup(ids)
    ensures forall i, j :: 0 <= i < j < |Cands(g, q, excl, ids)| ==>
      Cands(g, q, excl, ids)[i].id != Cands(g, q, excl, ids)[j].id
  {
    if ids != [] {
      CandsMembers(g, q, excl, ids[1..]);
      assert ids[0] !in ids[1..];
      CandsDistinct(g, q, excl, ids[1..]);
    }
  }

  /** The least position attaining the maximal score. */
  lemma {:induction false} FirstBestExists(c: seq<Cand>) returns (k: nat)
    requires exists j :: 0 <= j < |c| && c[j].score > 0
    ensures IsFirstBest(c, k)
    decreases |c|
  {
    var init := c[..|c| - 1];
    var x := c[|c| - 1];
    if j :| 0 <= j < |init| && init[j].score > 0 {
      k := FirstBestExists(init);
      assert forall j :: 0 <= j < |init| ==> c[j] == init[j];
      if x.score > c[k].score {
        k := |c| - 1;
      }
    } else {
      assert forall j :: 0 <= j < |init| ==> c[j] == init[j];
      k := |c| - 1;
    }
  }

  /** The result has the best score of all eligible entries; the search is unsure exactly when
      another entry shares that score; nothing is found exactly when nobody is eligible. */
  lemma ResultMeaning(g: Graph, q: Query, excl: Option<nat>)
    requires WF(g) && Sane(g, q)
    ensures Result(g, q, excl).None? ==> forall e: nat :: !Eligible(g, q, excl, e)
    ensures Result(g, q, excl).Some? ==>
      var r := Result(g, q, excl).value;
      && Eligible(g, q, excl, r)
      && (forall e: nat :: Eligible(g, q, excl, e) ==> Score(g, q, e) <= Score(g, q, r))
    ensures Result(g, q, excl).None? ==> !Unsure(g, q, excl)
    ensures Result(g, q, excl).Some? ==>
      var r := Result(g, q, excl).value;
      (Unsure(g, q, excl) <==> exists e: nat :: e != r && Eligible(g, q, excl, e) && Score(g, q, e) == Score(g, q, r))
  {
    var cs := CandLists(g, q, excl, 0);
    var ids := Order(g);
    var c := Cands(g, q, excl, ids);
    SearchSucceeds(g, q, excl);
    HeuristicMeaning(cs);
    CandsMembers(g, q, excl, ids);
    OrderMembers(g);
    CandsDistinct(g, q, excl, ids);
    forall e: nat | Eligible(g, q, excl, e) ensures Cand(e, Score(g, q, e)) in c {
      assert e in ids;
    }
    if exists j :: 0 <= j < |c| && c[j].score > 0 {
      var k := FirstBestExists(c);
      BestIsResult(g, q, excl, c, k);
    }
  }

  lemma BestIsResult(g: Graph, q: Query, excl: Option<nat>, c: seq<Cand>, k: nat)
    requires WF(g) && Sane(g, q) && IsFirstBest(c, k)
    requires forall i :: 0 <= i < |c| ==>
      c[i].id < |g.info| && excl != Some(c[i].id) && c[i].score == Score(g, q, c[i].id)
    requires forall i, j :: 0 <= i < j < |c| ==> c[i].id != c[j].id
    requires forall e: nat :: Eligible(g, q, excl, e) ==> Cand(e, Score(g, q, e)) in c
    ensures Eligible(g, q, excl, c[k].id)
    ensures forall e: nat :: Eligible(g, q, excl, e) ==> Score(g, q, e) <= c[k].score
    ensures (exists j :: 0 <= j < |c| && j != k && c[j].score == c[k].score) <==>
            (exists e: nat :: e != c[k].id && Eligible(g, q, excl, e) && Score(g, q, e) == c[k].score)
  {
    forall e: nat | Eligible(g, q, excl, e) ensures Score(g, q, e) <= c[k].score {
      var j :| 0 <= j < |c| && c[j] == Cand(e, Score(g, q, e));
    }
    if j :| 0 <= j < |c| && j != k && c[j].score == c[k].score {
      assert Eligible(g, q, excl, c[j].id);
    }
    if e: nat :| e != c[k].id && Eligible(g, q, excl, e) && Score(g, q, e) == c[k].score {
      var j :| 0 <= j < |c| && c[j] == Cand(e, Score(g, q, e));
    }
  }

  /** The first entry of `ids` with score `s`. */
  ghost function FirstScored(g: Graph, q: Query, excl: Option<nat>, ids: seq<nat>, s: int): Option<nat>
    requires WF(g) && Sane(g, q) && AllBelow(ids, |g.info|)
  {
    if ids == [] then None
    else if excl != Some(ids[0]) && Score(g, q, ids[0]) == s then Some(ids[0])
    else FirstScored(g, q, excl, ids[1..], s)
  }

  lemma {:induction false} FirstScoredIsFirst(g: Graph, q: Query, excl: Option<nat>, ids: seq<nat>, k: nat)
    requires WF(g) && Sane(g, q) && AllBelow(ids, |g.info|)
    requires k < |Cands(g, q, excl, ids)|
    requires forall j :: 0 <= j < k ==> Cands(g, q, excl, ids)[j].score != Cands(g, q, excl, ids)[k].score
    ensures FirstScored(g, q, excl, ids, Cands(g, q, excl, ids)[k].score) == Some(Cands(g, q, excl, ids)[k].id)
  {
    var c := Cands(g, q, excl, ids);
    if excl == Some(ids[0]) {
      FirstScoredIsFirst(g, q, excl, ids[1..], k);
    } else if k > 0 {
      assert c[1..] == Cands(g, q, excl, ids[1..]);
      assert forall j :: 0 <= j < |c| - 1 ==> c[1..][j] == c[j + 1];
      assert c[0].score != c[k].score;
      FirstScoredIsFirst(g, q, excl, ids[1..], k - 1);
    }
  }

  /** Among entries with the best score the first in list order is returned. */
  lemma ResultIsFirst(g: Graph, q: Query, excl: Option<nat>)
    requires WF(g) && Sane(g, q) && Result(g, q, excl).Some?
    ensures Eligible(g, q, excl, Result(g, q, excl).value)
    ensures Result(g, q, excl) == FirstScored(g, q, excl, Order(g), Score(g, q, Result(g, q, excl).value))
  {
    ResultMeaning(g, q, excl);
    var c := Cands(g, q, excl, Order(g));
    SearchSucceeds(g, q, excl);
    HeuristicMeaning(CandLists(g, q, excl, 0));
    CandsMembers(g, q, excl, Order(g));
    var k := FirstBestExists(c);
    FirstScoredIsFirst(g, q, excl, Order(g), k);
  }

  // ----- searches depend only on scores and list order

  ghost predicate SameLists(g: Graph, h: Graph) {
    && |h.info| == |g.info| && |h.spaces| == |g.spaces|
    && forall j :: 0 <= j < |g.spaces| ==> h.spaces[j].ifaces == g.spaces[j].ifaces
  }

  ghost predicate SameScores(g: Graph, h: Graph, q: Query)
    requires WF(g) && WF(h) && Sane(g, q) && Sane(h, q)
  {
    forall e: nat :: e < |g.info| && e < |h.info| ==> Score(h, q, e) == Score(g, q, e)
  }

  lemma {:induction false} CandsSame(g: Graph, h: Graph, q: Query, excl: Option<nat>, ids: seq<nat>)
    requires WF(g) && WF(h) && Sane(g, q) && Sane(h, q) && |h.info| == |g.info| && SameScores(g, h, q)
    requires AllBelow(ids, |g.info|)
    ensures Cands(h, q, excl, ids) == Cands(g, q, excl, ids)
  {
    if ids != [] {
      CandsSame(g, h, q, excl, ids[1..]);
    }
  }

  lemma {:induction false} CandListsSame(g: Graph, h: Graph, q: Query, excl: Option<nat>, j: nat)
    requires WF(g) && WF(h) && Sane(g, q) && Sane(h, q) && SameLists(g, h) && SameScores(g, h, q)
    requires j <= |g.spaces|
    ensures CandLists(h, q, excl, j) == CandLists(g, q, excl, j)
    decreases |g.spaces| - j
  {
    if j < |g.spaces| {
      SpaceBelow(g, j);
      CandsSame(g, h, q, excl, g.spaces[j].ifaces);
      CandListsSame(g, h, q, excl, j + 1);
    }
  }

  lemma {:induction false} OrderToSame(g: Graph, h: Graph, j: nat)
    requires WF(g) && WF(h) && SameLists(g, h) && j <= |g.spaces|
    ensures OrderTo(h, j) == OrderTo(g, j)
  {
    if j > 0 {
      OrderToSame(g, h, j - 1);
    }
  }

  lemma OrderSame(g: Graph, h: Graph)
    requires WF(g) && WF(h) && SameLists(g, h)
    ensures Order(h) == Order(g)
  {
    OrderToSame(g, h, |g.spaces|);
  }

  lemma SearchSame(g: Graph, h: Graph, q: Query, excl: Option<nat>)
    requires WF(g) && WF(h) && Sane(g, q) && Sane(h, q) && SameLists(g, h) && SameScores(g, h, q)
    ensures Result(h, q, excl) == Result(g, q, excl) && Unsure(h, q, excl) == Unsure(g, q, excl)
  {
    CandListsSame(g, h, q, excl, 0);
  }
}
