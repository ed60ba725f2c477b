/** master.c's process and master_resolve as functions of the graph, and what they achieve. */
module Resolution {
  import opened Common
  import opened Model
  import opened Search

  /** The warning for an unsure or empty search. */
  ghost function WarnIf(g: Graph, b: bool, x: nat): (h: Graph)
    requires WF(g) && x < |g.info|
    ensures WF(h)
  {
    if b then Warn(g, x) else g
  }

  ghost predicate Doubtful(g: Graph, q: Query, x: nat)
    requires WF(g) && Sane(g, q)
  {
    Unsure(g, q, Some(x)) || Result(g, q, Some(x)).None?
  }

  lemma ResultId(g: Graph, q: Query, excl: Option<nat>)
    requires WF(g) && Sane(g, q)
    ensures Id(g, Result(g, q, excl))
  {
    ResultMeaning(g, q, excl);
  }

  /** The master half of process. */
  ghost function ProcessMaster(g: Graph, x: nat): (h: Graph)
    requires WF(g) && x < |g.info|
    ensures WF(h) && h.info == g.info
  {
    if g.master.up[x].None? && g.info[x].masterIndex != 0 then
      ResultId(g, ByMaster(x), Some(x));
      SetMaster(WarnIf(g, Doubtful(g, ByMaster(x), x), x), Result(g, ByMaster(x), Some(x)), x)
    else g
  }

  /** The link half of process. */
  ghost function ProcessLink(g: Graph, x: nat): (h: Graph)
    requires WF(g) && x < |g.info|
    ensures WF(h) && h.info == g.info
  {
    if g.link.up[x].None? && g.info[x].linkIndex != 0 then
      ResultId(g, ByLink(x), Some(x));
      SetLink(WarnIf(g, Doubtful(g, ByLink(x), x), x), Result(g, ByLink(x), Some(x)), x)
    else g
  }

  /** master_resolve over the entries `ids`. */
  ghost function Resolve(g: Graph, ids: seq<nat>): (h: Graph)
    requires WF(g) && AllBelow(ids, |g.info|)
    ensures WF(h) && h.info == g.info
  {
    if ids == [] then g
    else
      var h := Resolve(g, ids[..|ids| - 1]);
      ProcessLink(ProcessMaster(h, ids[|ids| - 1]), ids[|ids| - 1])
  }

  // ----- one entry

  ghost predicate MasterPending(g: Graph, x: nat)
    requires WF(g) && x < |g.info|
  {
    g.master.up[x].None? && g.info[x].masterIndex != 0
  }

  ghost predicate LinkPending(g: Graph, x: nat)
    requires WF(g) && x < |g.info|
  {
    g.link.up[x].None? && g.info[x].linkIndex != 0
  }

  /** `h` is `g` with some relations set and warnings added, everything else alike. */
  ghost predicate SameBase(g: Graph, h: Graph) {
    && SameLists(g, h) && h.info == g.info && h.peer == g.peer
    && |h.marks| == |g.marks|
    && (forall j :: 0 <= j < |g.spaces| ==> h.spaces[j].name == g.spaces[j].name && h.spaces[j].ids == g.spaces[j].ids)
    && (forall i :: 0 <= i < |g.marks| ==> h.marks[i] == g.marks[i].(warnings := h.marks[i].warnings))
  }

  /** The searches of this pass never look at what the pass changes. */
  lemma IndexSearchSame(g: Graph, h: Graph, x: nat)
    requires WF(g) && WF(h) && SameBase(g, h) && x < |g.info|
    ensures Result(h, ByMaster(x), Some(x)) == Result(g, ByMaster(x), Some(x))
    ensures Result(h, ByLink(x), Some(x)) == Result(g, ByLink(x), Some(x))
    ensures Doubtful(h, ByMaster(x), x) == Doubtful(g, ByMaster(x), x)
    ensures Doubtful(h, ByLink(x), x) == Doubtful(g, ByLink(x), x)
  {
    SearchSame(g, h, ByMaster(x), Some(x));
    SearchSame(g, h, ByLink(x), Some(x));
  }

  function One(b: bool): nat {
    if b then 1 else 0
  }

  lemma ProcessMasterEffect(g: Graph, x: nat)
    requires WF(g) && x < |g.info|
    ensures var h := ProcessMaster(g, x);
      && SameBase(g, h) && h.link == g.link
      && h.master.up == (if MasterPending(g, x) then g.master.up[x := Result(g, ByMaster(x), Some(x))] else g.master.up)
      && forall i :: 0 <= i < |g.marks| ==>
           h.marks[i].warnings ==
             g.marks[i].warnings + One(i == x && MasterPending(g, x) && Doubtful(g, ByMaster(x), x))
  {
    ResultId(g, ByMaster(x), Some(x));
    if MasterPending(g, x) {
      SetUpKeepsMirror(g.master, Result(g, ByMaster(x), Some(x)), x);
    }
  }

  lemma ProcessLinkEffect(g: Graph, x: nat)
    requires WF(g) && x < |g.info|
    ensures var h := ProcessLink(g, x);
      && SameBase(g, h) && h.master == g.master
      && h.link.up == (if LinkPending(g, x) then g.link.up[x := Result(g, ByLink(x), Some(x))] else g.link.up)
      && forall i :: 0 <= i < |g.marks| ==>
           h.marks[i].warnings == g.marks[i].warnings + One(i == x && LinkPending(g, x) && Doubtful(g, ByLink(x), x))
  {
    ResultId(g, ByLink(x), Some(x));
    if LinkPending(g, x) {
      SetUpKeepsMirror(g.link, Result(g, ByLink(x), Some(x)), x);
    }
  }

  // ----- the pass

  /** What master_resolve leaves in the row of entry `i`, in terms of the graph before the pass. */
  ghost predicate Resolved(g: Graph, h: Graph, i: nat, visited: bool)
    requires WF(g) && WF(h) && h.info == g.info && i < |g.info|
  {
    && h.master.up[i] == (if visited && MasterPending(g, i) then Result(g, ByMaster(i), Some(i)) else g.master.up[i])
    && h.link.up[i] == (if visited && LinkPending(g, i) then Result(g, ByLink(i), Some(i)) else g.link.up[i])
    && h.marks[i].warnings == g.marks[i].warnings
         + One(visited && MasterPending(g, i) && Doubtful(g, ByMaster(i), i))
         + One(visited && LinkPending(g, i) && Doubtful(g, ByLink(i), i))
  }

  lemma ResolvedStep(g: Graph, h0: Graph, x: nat, i: nat, b: bool)
    requires WF(g) && WF(h0) && h0.info == g.info && SameBase(g, h0) && x < |g.info| && i < |g.info|
    requires Resolved(g, h0, i, b) && Resolved(g, h0, x, false) && (i == x ==> !b)
    ensures Resolved(g, ProcessLink(ProcessMaster(h0, x), x), i, b || i == x)
  {
    hide WF, SameBase, SameLists, ProcessMaster, ProcessLink, Doubtful, Result;
    var h1 := ProcessMaster(h0, x);
    Sizes(h0);
    Sizes(h1);
    ProcessMasterEffect(h0, x);
    ProcessLinkEffect(h1, x);
    IndexSearchSame(g, h0, x);
    IndexSearchSame(h0, h1, x);
  }

  lemma ResolveNothing(g: Graph)
    requires WF(g)
    ensures SameBase(g, g)
    ensures forall i :: 0 <= i < |g.info| ==> Resolved(g, g, i, false)
  {
  }

  lemma Sizes(g: Graph)
    requires WF(g)
    ensures |g.master.up| == |g.link.up| == |g.peer| == |g.marks| == |g.info|
  {
  }

  lemma SameBaseTrans(g: Graph, h: Graph, k: Graph)
    requires SameBase(g, h) && SameBase(h, k)
    ensures SameBase(g, k)
  {
  }

  /** Whatever the order of processing, each entry ends up with the result of its own searches
      in the original graph: relations already set are untouched, one warning is added exactly
      for each search that finds nothing or is unsure, and nothing else changes. */
  lemma {:induction false} ResolveMeaning(g: Graph, ids: seq<nat>)
    requires WF(g) && AllBelow(ids, |g.info|) && NoDup(ids)
    ensures SameBase(g, Resolve(g, ids))
    ensures forall i :: 0 <= i < |g.info| ==> Resolved(g, Resolve(g, ids), i, i in ids)
  {
    hide WF, SameBase, SameLists, ProcessMaster, ProcessLink, Resolved;
    if ids == [] {
      ResolveNothing(g);
    } else {
      var init := ids[..|ids| - 1];
      var x := ids[|ids| - 1];
      assert ids == init + [x] && x !in init;
      ResolveMeaning(g, init);
      var h0 := Resolve(g, init);
      var h1 := ProcessMaster(h0, x);
      ProcessMasterEffect(h0, x);
      ProcessLinkEffect(h1, x);
      SameBaseTrans(g, h0, h1);
      SameBaseTrans(g, h1, ProcessLink(h1, x));
      forall i | 0 <= i < |g.info| ensures Resolved(g, Resolve(g, ids), i, i in ids) {
        assert Resolved(g, h0, i, i in init) && Resolved(g, h0, x, false);
        ResolvedStep(g, h0, x, i, i in init);
      }
    }
  }

  // ----- which entry an index search returns

  /** Entry `e`, other than `x` itself, carries the index; in the namespace of `x` or elsewhere. */
  predicate Carries(g: Graph, index: nat, x: nat, e: nat, local: bool)
    requires x < |g.info| && e < |g.info|
  {
    e != x && g.info[e].ifIndex == index && (g.info[e].ns == g.info[x].ns <==> local)
  }

  function FirstCarrier(g: Graph, index: nat, x: nat, local: bool, ids: seq<nat>): Option<nat>
    requires x < |g.info| && AllBelow(ids, |g.info|)
  {
    if ids == [] then None
    else if Carries(g, index, x, ids[0], local) then Some(ids[0])
    else FirstCarrier(g, index, x, local, ids[1..])
  }

  /** The index query of `x`: for its master or for its link. */
  ghost function IndexQuery(x: nat, master: bool): Query {
    if master then ByMaster(x) else ByLink(x)
  }

  ghost function IndexOf(g: Graph, x: nat, master: bool): nat
    requires x < |g.info|
  {
    if master then g.info[x].masterIndex else g.info[x].linkIndex
  }

  lemma {:induction false} ScoredIsCarrier(g: Graph, x: nat, master: bool, local: bool, ids: seq<nat>)
    requires WF(g) && x < |g.info| && AllBelow(ids, |g.info|)
    ensures FirstScored(g, IndexQuery(x, master), Some(x), ids, if local then 2 else 1)
         == FirstCarrier(g, IndexOf(g, x, master), x, local, ids)
  {
    if ids != [] {
      ScoredIsCarrier(g, x, master, local, ids[1..]);
    }
  }

  lemma {:induction false} CarrierFound(g: Graph, index: nat, x: nat, local: bool, ids: seq<nat>)
    requires x < |g.info| && AllBelow(ids, |g.info|)
    ensures FirstCarrier(g, index, x, local, ids).Some? <==> exists e :: e in ids && Carries(g, index, x, e, local)
    ensures FirstCarrier(g, index, x, local, ids).Some? ==>
      var e := FirstCarrier(g, index, x, local, ids).value; e in ids && Carries(g, index, x, e, local)
  {
    if ids != [] {
      CarrierFound(g, index, x, local, ids[1..]);
      assert ids == [ids[0]] + ids[1..];
    }
  }

  /** A carrier in the namespace of `x` is preferred; failing that, the first one elsewhere in
      list order; failing that, nothing. The entry itself never counts. */
  lemma IndexTarget(g: Graph, x: nat, master: bool)
    requires WF(g) && x < |g.info|
    ensures var near := FirstCarrier(g, IndexOf(g, x, master), x, true, Order(g));
      Result(g, IndexQuery(x, master), Some(x)) ==
        if near.Some? then near else FirstCarrier(g, IndexOf(g, x, master), x, false, Order(g))
  {
    var q := IndexQuery(x, master);
    var index := IndexOf(g, x, master);
    ResultMeaning(g, q, Some(x));
    OrderMembers(g);
    forall local: bool | true
      ensures FirstCarrier(g, index, x, local, Order(g)).Some? <==> exists e: nat ::
        e < |g.info| && Carries(g, index, x, e, local)
    {
      CarrierFound(g, index, x, local, Order(g));
    }
    ScoredIsCarrier(g, x, master, true, Order(g));
    ScoredIsCarrier(g, x, master, false, Order(g));
    forall e: nat | e < |g.info| ensures Eligible(g, q, Some(x), e) <==>
      Carries(g, index, x, e, true) || Carries(g, index, x, e, false) {
    }
    if Result(g, q, Some(x)).Some? {
      ResultIsFirst(g, q, Some(x));
    }
  }

  ghost predicate UniqueIndexes(g: Graph) {
    forall i, j :: 0 <= i < j < |g.info| && g.info[i].ns == g.info[j].ns ==> g.info[i].ifIndex != g.info[j].ifIndex
  }

  /** With indexes unique per namespace, a carrier in the namespace of `x` is found and found
      reliably; without one, the search is in doubt exactly when there is not exactly one
      carrier elsewhere. */
  lemma UniqueTarget(g: Graph, x: nat, master: bool)
    requires WF(g) && x < |g.info| && UniqueIndexes(g)
    ensures forall e: nat :: e < |g.info| && Carries(g, IndexOf(g, x, master), x, e, true) ==>
      Result(g, IndexQuery(x, master), Some(x)) == Some(e) && !Doubtful(g, IndexQuery(x, master), x)
    ensures (forall e: nat :: e < |g.info| ==> !Carries(g, IndexOf(g, x, master), x, e, true)) ==>
      (Doubtful(g, IndexQuery(x, master), x) <==>
        !exists e: nat :: && e < |g.info| && Carries(g, IndexOf(g, x, master), x, e, false)
                     && forall f: nat :: f < |g.info| && Carries(g, IndexOf(g, x, master), x, f, false) ==> f == e)
  {
    var q := IndexQuery(x, master);
    var index := IndexOf(g, x, master);
    ResultMeaning(g, q, Some(x));
    forall e: nat | e < |g.info|
      ensures Eligible(g, q, Some(x), e) <==> Carries(g, index, x, e, true) || Carries(g, index, x, e, false)
      ensures Eligible(g, q, Some(x), e) ==> Score(g, q, e) == if Carries(g, index, x, e, true) then 2 else 1
    {
    }
    if r: nat :| Result(g, q, Some(x)) == Some(r) {
      assert Eligible(g, q, Some(x), r);
    }
  }

  /** The whole pass: every relation that was pending becomes the local carrier of the index,
      else the first one elsewhere in list order, else stays empty; the others are untouched. */
  lemma MasterResolveMeaning(g: Graph, i: nat)
    requires WF(g) && i < |g.info|
    ensures var h := Resolve(g, Order(g));
      var near := FirstCarrier(g, g.info[i].masterIndex, i, true, Order(g));
      h.master.up[i] ==
        if !MasterPending(g, i) then g.master.up[i]
        else if near.Some? then near
        else FirstCarrier(g, g.info[i].masterIndex, i, false, Order(g))
    ensures var h := Resolve(g, Order(g));
      var near := FirstCarrier(g, g.info[i].linkIndex, i, true, Order(g));
      h.link.up[i] ==
        if !LinkPending(g, i) then g.link.up[i]
        else if near.Some? then near
        else FirstCarrier(g, g.info[i].linkIndex, i, false, Order(g))
  {
    OrderMembers(g);
    ResolveMeaning(g, Order(g));
    assert Resolved(g, Resolve(g, Order(g)), i, i in Order(g));
    IndexTarget(g, i, true);
    IndexTarget(g, i, false);
  }

  /** The outcome per entry does not depend on the order of processing. */
  lemma ResolveAnyOrder(g: Graph, a: seq<nat>, b: seq<nat>)
    requires WF(g) && AllBelow(a, |g.info|) && AllBelow(b, |g.info|) && NoDup(a) && NoDup(b)
    requires forall i :: i in a <==> i in b
    ensures Resolve(g, a).master.up == Resolve(g, b).master.up
    ensures Resolve(g, a).link.up == Resolve(g, b).link.up
    ensures Resolve(g, a).marks == Resolve(g, b).marks
  {
    hide WF, Resolve, Result, Doubtful, MasterPending, LinkPending;
    ResolveMeaning(g, a);
    ResolveMeaning(g, b);
    Sizes(Resolve(g, a));
    Sizes(Resolve(g, b));
    forall i | 0 <= i < |g.info|
      ensures Resolve(g, a).master.up[i] == Resolve(g, b).master.up[i]
      ensures Resolve(g, a).link.up[i] == Resolve(g, b).link.up[i]
      ensures Resolve(g, a).marks[i] == Resolve(g, b).marks[i]
    {
      assert Resolved(g, Resolve(g, a), i, i in a) && Resolved(g, Resolve(g, b), i, i in b);
    }
  }
}
